# Dafny model of self-contained algorithms in a WebKit-based browser

The browser embeds WebKit and its test tools. This project models the algorithms among them that carry hard
properties and proves those properties for all inputs, all runs and all reachable states.

- **Keyword lookup** (`KeywordTrie`, `TrieObjects`, `KeywordWeights`, `PackedCompare`, `KeywordCode`,
  `KeywordStops`, `KeywordLookup`, `KeywordGenerator`): the generator that turns a keyword list into the lexer's
  decision tree. The trie is built and coalesced as objects changed in place, weighed and sorted, and compiled to
  nested tests with packed comparisons; the result is run by an interpreter and compared with the keyword table.
- **CRC-32 and PNG comments** (`Bitwise`, `LinearRegister`, `Crc`, `CrcValues`, `Decimals`, `Png`): the table-driven CRC
  against the bit-serial register of section 3.4 of RFC 2083, its polynomial and burst detection, and the
  image writer that inserts a comment chunk, against the chunk layout of section 3.2 of RFC 2083.
- **JavaScript threads** (`ThreadPool`, on the runs of `Transitions`): four threads that replace themselves, and the
  function that stops them, as a state machine whose steps are the critical sections of one mutex.
- **User add-ons** (`Glob`, `UserScripts`, `ScriptLines`, `UserStyles`, `StyleComments`, `StyleSheets`): globs compiled
  to regular expressions, script metadata and the decision to run, and the state machine that flattens style sheets.
- **Work queues** (`WorkQueues`, `WorkQueueRuns`): the static-array and the deque queue as programs, whose
  methods are runs of re-entrant machines, which refine one abstract queue.
- **Parsers and streams** (`Commands`, `RegExpStrings`, `OutputLines`): the quote-separated command tokenizer, the
  escape scanner, and the chunk-to-line splitter.

Where a property that one would expect does not hold, the model keeps the code as it is, gives the exact condition on
the input, and shows an input that fails:

- `KeywordLookup.GeneratedIsSafe`: a comparison of more than eight characters has no macro (`LoneLongKeyword`).
- `ThreadPool.StopWaitsForJoinable`: stop may wait for a thread that detaches itself (`DetachedIsWaitedFor`), and then
  leaves its replacement running (`OnlyLeavingRemain`).
- `StyleComments.CommentIsDropped`: comment openings are counted, although comments do not nest, and at-blocks are
  tracked inside comments (`AtSignMutes`, `StarMutes`, `SlashShows`, `OpeningsMute`).
- `StyleSheets.HeadOpensBlock`: an at-block whose head has no '-' and no 'n' is lost, and so is what follows it
  (`MediaIsLost`).
- `StyleSheets.BodyIsKept`: rules inside rules are not known, so that a brace can end the at-block too early
  (`RulesInRules`).
- `RegExpStrings.AllReadable`: a backslash or a negative char does not work as a terminator.
- `Crc.BurstOf33`: bursts of 33 bits can be missed (`BurstOf33IsMissed`).

## Model

| member | source | states |
|---|---|---|
| `KeywordLookup.ParseKeywordCorrect` | Source/JavaScriptCore/KeywordLookupGenerator.py:140-174 | For every list of keywords made of identifier characters below 0x80 along which stops are at most eight characters apart (a stop is the start, a keyword, or a point where two keywords part), every weight table, way of comparing (unit by unit, pairs, fours) and unit width, and every code with at least maxTokenLength units left: the emitted decision tree reads inside the code, returns a keyword's token, length and name if that keyword is next and no identifier part, written out or as a Unicode escape, follows it, and returns nothing else |
| `KeywordLookup.MatchIsUnique` | Source/JavaScriptCore/parser/Lexer.cpp:698-712 | For keywords made of identifier characters, at most one is next in the code without an identifier part after it |
| `KeywordCode.IdentPartFollows` | Source/JavaScriptCore/parser/Lexer.cpp:684-712 | The lexer's test for an identifier part is true exactly when the next unit is one, or a backslash, a u and four hexadecimal digits of either case that spell one are next |
| `KeywordLookup.EscapeEndsNoKeyword` | Source/JavaScriptCore/parser/Lexer.cpp:684-712 | If a backslash is not an identifier part: a keyword with an escaped identifier part after it is never returned, and nor is any other keyword |
| `KeywordLookup.GeneratedIsSafe` | Source/JavaScriptCore/KeywordLookupGenerator.py:176-190 | No test of the emitted code mentions an index at or beyond maxTokenLength; unless the list is empty, one mentions the last index below it; and every comparison has a macro exactly when the keyword list has a stop at most eight characters after every stop along every keyword |
| `KeywordLookup.EdgesFromKeywords` | Source/JavaScriptCore/KeywordLookupGenerator.py:111-126 | Every edge of the generated tree has at most eight characters exactly when the stops of the keyword list are that close |
| `KeywordStops.FitMeansClose` | Source/JavaScriptCore/KeywordLookupGenerator.py:111-126 | Short edges mean close stops, in every tree of the generated shape |
| `KeywordStops.CloseMeansFit` | Source/JavaScriptCore/KeywordLookupGenerator.py:111-126 | Close stops mean short edges, in every tree of the generated shape |
| `KeywordStops.KidIsStop` | Source/JavaScriptCore/KeywordLookupGenerator.py:118-125 | Every node below the root is a keyword or a point where two keywords part |
| `KeywordStops.NoStopInside` | Source/JavaScriptCore/KeywordLookupGenerator.py:118-125 | Between a node and its child no keyword ends and no two keywords part |
| `KeywordLookup.LoneLongKeyword` | Source/JavaScriptCore/KeywordLookupGenerator.py:157-164 | A list of one keyword of more than eight characters, any such keyword, gives a comparison that has no macro |
| `KeywordLookup.InterfaceAlone` | Source/JavaScriptCore/KeywordLookupGenerator.py:157-164 | For example a list of the nine letters of interface alone |
| `KeywordLookup.LongestKeyword` | Source/JavaScriptCore/KeywordLookupGenerator.py:176-190 | maxTokenLength is more than the length of every keyword, and one more than that of some keyword |
| `KeywordLookup.GeneratedHolds` | Source/JavaScriptCore/KeywordLookupGenerator.py:214-219 | Building, coalescing and sorting keep the keyword table: every word looks up to its last binding |
| `TrieObjects.TrieNode.constructor` | Source/JavaScriptCore/KeywordLookupGenerator.py:98-101 | A new node is an empty tree of its own |
| `KeywordTrie.InsertShape` | Source/JavaScriptCore/KeywordLookupGenerator.py:103-109 | insert keeps one-unit edges, siblings with different first units and no leaf without a value below the root |
| `KeywordTrie.InsertFind` | Source/JavaScriptCore/KeywordLookupGenerator.py:103-109 | insert rebinds exactly one word and leaves every other lookup alone |
| `KeywordTrie.InsertValues` | Source/JavaScriptCore/KeywordLookupGenerator.py:103-109 | insert adds one value, unless the word was bound already |
| `KeywordTrie.BuildFind` | Source/JavaScriptCore/KeywordLookupGenerator.py:215-217 | The trie made by inserting the list one by one holds exactly the table in which a later binding replaces an earlier one |
| `KeywordTrie.BuildValues` | Source/JavaScriptCore/KeywordLookupGenerator.py:215-217 | The trie holds as many values as there are distinct keywords |
| `KeywordTrie.RekeyKids` | Source/JavaScriptCore/KeywordLookupGenerator.py:112-116 | Filing coalesced children under their merged prefixes overwrites no entry and keeps their order |
| `KeywordTrie.PutAllDistinct` | Source/JavaScriptCore/KeywordLookupGenerator.py:112-116 | Filing nodes under distinct prefixes appends them in order |
| `KeywordTrie.CoalesceShape` | Source/JavaScriptCore/KeywordLookupGenerator.py:111-126 | coalesce keeps siblings apart and leaves every descendant with a value or at least two children |
| `KeywordTrie.CoalesceFind` | Source/JavaScriptCore/KeywordLookupGenerator.py:111-126 | coalesce preserves the lookup of every string |
| `KeywordTrie.CoalesceValues` | Source/JavaScriptCore/KeywordLookupGenerator.py:111-126 | coalesce loses and adds no value |
| `KeywordTrie.CoalescedShape` | Source/JavaScriptCore/KeywordLookupGenerator.py:215-218 | After the driver's coalesce every node below the root has a value or at least two children, and siblings stay apart |
| `KeywordTrie.CoalescedFind` | Source/JavaScriptCore/KeywordLookupGenerator.py:215-218 | After the driver's coalesce, which drops the root's result, every string still looks up to what the table says |
| `KeywordTrie.CompactNodes` | Source/JavaScriptCore/KeywordLookupGenerator.py:118-125 | In a forest without valueless single-child nodes the nodes and the roots together are at most twice the values |
| `KeywordTrie.CoalescedSize` | Source/JavaScriptCore/KeywordLookupGenerator.py:111-126 | At most 2n - 1 nodes below the root for n distinct keywords, n > 0 |
| `TrieObjects.TrieNode.Insert` | Source/JavaScriptCore/KeywordLookupGenerator.py:103-109 | The in-place insert on trie objects: the object tree stays a tree and its value is the inserted trie |
| `TrieObjects.TrieNode.Coalesce` | Source/JavaScriptCore/KeywordLookupGenerator.py:111-126 | The in-place coalesce: the node itself becomes the root form, and the result, which may be a new node that takes over a child's children, is the coalesced trie |
| `TrieObjects.TrieNode.CoalesceEachChild` | Source/JavaScriptCore/KeywordLookupGenerator.py:112-116 | The loop over children builds disjoint trees whose values are the coalesced children filed under their prefixes, and leaves the node itself alone |
| `TrieObjects.File` | Source/JavaScriptCore/KeywordLookupGenerator.py:115-115 | Filing a tree under its prefix replaces an entry with that prefix or appends it, and keeps the trees disjoint |
| `KeywordWeights.SortIsStable` | Source/JavaScriptCore/KeywordLookupGenerator.py:137-137 | The order of siblings is a stable descending rearrangement |
| `KeywordWeights.SortHolds` | Source/JavaScriptCore/KeywordLookupGenerator.py:137-137 | Sorting siblings changes no lookup |
| `KeywordWeights.FillOutShape` | Source/JavaScriptCore/KeywordLookupGenerator.py:128-138 | fillOut gives every node its full prefix, keeps siblings apart and sorts them by descending weight |
| `KeywordWeights.FillOutHolds` | Source/JavaScriptCore/KeywordLookupGenerator.py:128-138 | fillOut changes no lookup |
| `KeywordWeights.FillOutWeighs` | Source/JavaScriptCore/KeywordLookupGenerator.py:128-138 | Every node weighs the sum of the observed weights of the words at and below it, and every trie node is visited once |
| `KeywordWeights.WeightIsSum` | Source/JavaScriptCore/KeywordLookupGenerator.py:128-138 | A node weighs the sum of the table's weights of the words at and below it |
| `KeywordWeights.WeightOfNone` | Source/JavaScriptCore/KeywordLookupGenerator.py:128-138 | With an empty weight table every node weighs nothing |
| `KeywordWeights.WeightOfOne` | Source/JavaScriptCore/KeywordLookupGenerator.py:128-138 | With one word in the weight table a node weighs that word's weight, as often as the word is at or below it |
| `KeywordWeights.WeightSplits` | Source/JavaScriptCore/KeywordLookupGenerator.py:128-138 | Every entry of the weight table adds its own share to a node's weight |
| `KeywordWeights.FillOutIsCheapest` | Source/JavaScriptCore/KeywordLookupGenerator.py:137-137 | No reordering of siblings anywhere in the tree needs fewer weighted tests |
| `KeywordWeights.SortedIsCheapest` | Source/JavaScriptCore/KeywordLookupGenerator.py:134-138 | A tree sorted at every level needs no more weighted tests than any tree with the siblings reordered at any level |
| `KeywordWeights.DescendingIsCheapest` | Source/JavaScriptCore/KeywordLookupGenerator.py:137-137 | Among all orders of the same siblings the descending one has the least weighted number of tests |
| `PackedCompare.CompareExact` | Source/JavaScriptCore/KeywordLookupGenerator.py:222-302 | Each COMPARE_n macro, aligned or packed on a little-endian CPU, for 8-bit or 16-bit units, is true exactly when all its characters are equal |
| `PackedCompare.Compare2Exact` | Source/JavaScriptCore/KeywordLookupGenerator.py:248-263 | The packed comparison of two characters is exact |
| `PackedCompare.Compare4Exact` | Source/JavaScriptCore/KeywordLookupGenerator.py:248-279 | The packed comparison of four characters is exact |
| `KeywordCode.ArmTest` | Source/JavaScriptCore/KeywordLookupGenerator.py:152-164 | For characters below 0x80, below a matched parent a child's test, also the three-character test widened to the left, is true exactly when the child's whole word matches |
| `KeywordCode.ArmWidth` | Source/JavaScriptCore/KeywordLookupGenerator.py:152-157 | A child's test covers the units up to the end of its whole word: those of its edge, or one more on the left for an edge of three below the root |
| `KeywordCode.EmitReach` | Source/JavaScriptCore/KeywordLookupGenerator.py:140-190 | The highest index that the tests and the identifier checks of a subtree mention is the length of the longest keyword in it |
| `KeywordCode.EmitCompiles` | Source/JavaScriptCore/KeywordLookupGenerator.py:157-164 | A subtree uses existing macros only, exactly when its edges have at most eight characters |
| `KeywordCode.RunHit` | Source/JavaScriptCore/KeywordLookupGenerator.py:143-149 | What the emitted code returns is a word of the tree, found in the code, not followed by an identifier part |
| `KeywordCode.RunMiss` | Source/JavaScriptCore/KeywordLookupGenerator.py:152-174 | When the emitted code falls through, every word of the tree that is in the code is followed by an identifier part |
| `KeywordGenerator.FillOutTrie` | Source/JavaScriptCore/KeywordLookupGenerator.py:128-138 | The loop over children computes the specified tree |
| `KeywordGenerator.MaxLengthOf` | Source/JavaScriptCore/KeywordLookupGenerator.py:176-182 | The loop computes the length of the longest full prefix |
| `KeywordGenerator.PrintSubTree` | Source/JavaScriptCore/KeywordLookupGenerator.py:140-174 | The loop emits the specified decision tree |
| `KeywordGenerator.PrintArm` | Source/JavaScriptCore/KeywordLookupGenerator.py:152-172 | One turn of the loop emits the specified arm, widened to the left where the source does so |
| `KeywordGenerator.Generate` | Source/JavaScriptCore/KeywordLookupGenerator.py:214-219 | The driver, on trie objects, emits the decision tree and the maxTokenLength that the theorems are about |
| `Crc.BurstChangesCrc` | Tools/DumpRenderTree/CyclicRedundancyCheck.cpp:50-63 | Two different buffers of one length whose messages differ within 32 consecutive bits have different CRCs |
| `Crc.BurstOf33` | Tools/DumpRenderTree/CyclicRedundancyCheck.cpp:50-63 | Two buffers of one length whose messages differ within 33 consecutive bits have the same CRC exactly when they are equal or differ by the generator polynomial there |
| `Crc.BurstOf33IsMissed` | Tools/DumpRenderTree/CyclicRedundancyCheck.cpp:50-63 | 32 is the best bound: for every buffer and every position with 33 bits left there is another buffer of the same length that differs within those bits only and has the same CRC |
| `Crc.OnlyGeneratorIsMissed` | Tools/DumpRenderTree/CyclicRedundancyCheck.cpp:60-61 | On messages: two windows of 33 bits lead to the same register exactly when they are equal or differ by the generator |
| `Crc.GeneratorIsMissed` | Tools/DumpRenderTree/CyclicRedundancyCheck.cpp:60-61 | Adding the generator to any 33 message bits leaves any register alone |
| `Crc.MessageOnto` | Tools/DumpRenderTree/CyclicRedundancyCheck.cpp:60-61 | Every sequence of whole bytes of bits is the message of a buffer |
| `Crc.UpdateIsEightBits` | Tools/DumpRenderTree/CyclicRedundancyCheck.cpp:60-61 | One table lookup does what eight steps of the bit-serial register do |
| `Crc.EntryIsEightBits` | Tools/DumpRenderTree/CyclicRedundancyCheck.cpp:38-47 | A table entry is eight bit steps from a cleared register |
| `Crc.EntryLinear` | Tools/DumpRenderTree/CyclicRedundancyCheck.cpp:36-48 | table[i xor j] is table[i] xor table[j] |
| `Crc.ShiftLinear` | Tools/DumpRenderTree/CyclicRedundancyCheck.cpp:40-45 | One turn of the inner loop is linear over xor, for every polynomial |
| `Crc.ShiftInjective` | Tools/DumpRenderTree/CyclicRedundancyCheck.cpp:40-45 | One turn of the inner loop is injective, for every polynomial with its top bit set |
| `Crc.StepInjective` | Tools/DumpRenderTree/CyclicRedundancyCheck.cpp:40-45 | One bit step is injective in the register, for every polynomial with its top bit set |
| `Crc.CrcTable.constructor` | Tools/DumpRenderTree/CyclicRedundancyCheck.cpp:52-57 | A new table is not yet computed |
| `Crc.CrcTable.MakeEntry` | Tools/DumpRenderTree/CyclicRedundancyCheck.cpp:39-46 | The inner loop computes a table entry |
| `Crc.CrcTable.MakeCrcTable` | Tools/DumpRenderTree/CyclicRedundancyCheck.cpp:36-48 | All 256 entries are filled in |
| `Crc.CrcTable.ComputeCrc` | Tools/DumpRenderTree/CyclicRedundancyCheck.cpp:50-63 | The table-driven loop, which makes the table on first use, computes the bit-serial CRC of section 3.4 of RFC 2083 |
| `CrcValues.GeneratorIs` | Tools/DumpRenderTree/CyclicRedundancyCheck.cpp:40-45 | The generator is the polynomial of section 3.4 of RFC 2083: these fifteen powers of x and no other |
| `CrcValues.CrcOfFour` | Tools/DumpRenderTree/CyclicRedundancyCheck.cpp:50-63 | The CRC of any four bytes is 32 shifts of their complement, complemented |
| `CrcValues.KnownValues` | Tools/DumpRenderTree/CyclicRedundancyCheck.cpp:50-63 | The CRCs of no bytes, of four bytes FF, and of FF FF FF 7F, as numbers |
| `LinearRegister.BurstIsSeen` | Tools/DumpRenderTree/CyclicRedundancyCheck.cpp:60-61 | For any register that is linear and injective: messages that differ in a window no wider than the register leave different registers |
| `LinearRegister.Absorb` | Tools/DumpRenderTree/CyclicRedundancyCheck.cpp:60-61 | Feeding up to a register's width of bits one at a time equals adding them first and shifting afterwards |
| `Png.AppendIntToVector` | Tools/DumpRenderTree/PixelDumpSupport.cpp:77-85 | Four bytes are appended, the most significant first |
| `Png.BigEndianRoundTrip` | Tools/DumpRenderTree/PixelDumpSupport.cpp:77-85 | The four bytes read back as the number |
| `Png.Base256Of` | Tools/DumpRenderTree/PixelDumpSupport.cpp:77-85 | The four bytes are the digits of the number to base 256 |
| `Png.ConvertChecksumToPngComment` | Tools/DumpRenderTree/PixelDumpSupport.cpp:87-103 | The bytes are the 53-byte encoding of the tEXt comment chunk of a 32-character checksum, with a valid CRC |
| `Png.Names` | Tools/DumpRenderTree/PixelDumpSupport.cpp:87-110 | The chunk types, the keyword of the comment with its NUL, and the signature, spelled out |
| `Png.PrintPng` | Tools/DumpRenderTree/PixelDumpSupport.cpp:112-136 | The output is the header with the body's length followed by the image with the comment after IHDR, cut off where the output runs out of room; with enough room an independent reader of the two header lines finds a length, exactly that many bytes follow, and they are 53 more than the image |
| `Png.HeaderIsRead` | Tools/DumpRenderTree/PixelDumpSupport.cpp:117-118 | The reader, which knows the literal texts of the two lines, takes every header apart into the length and what follows |
| `Png.OutputIsRead` | Tools/DumpRenderTree/PixelDumpSupport.cpp:112-136 | With enough room, what is appended to the output reads as the body's length and the body |
| `Png.SendPieces` | Tools/DumpRenderTree/PixelDumpSupport.cpp:125-135 | The loop of 32 KB writes sends everything there is room for and stops at a short write |
| `Png.BodyHasComment` | Tools/DumpRenderTree/PixelDumpSupport.cpp:105-136 | For every well-formed image the written body parses to IHDR, the comment, and the remaining chunks unchanged, and is 53 bytes longer |
| `Png.ChunkInserted` | Tools/DumpRenderTree/PixelDumpSupport.cpp:105-136 | Putting any encoded chunk after IHDR of a well-formed image inserts that chunk and changes no other |
| `Png.ChunkRoundTrip` | Tools/DumpRenderTree/PixelDumpSupport.cpp:89-89 | A chunk's encoding parses back to the chunk and what follows it |
| `Png.ChunkInverse` | Tools/DumpRenderTree/PixelDumpSupport.cpp:89-89 | What parses as a chunk is that chunk's encoding |
| `Png.ChunkLayout` | Tools/DumpRenderTree/PixelDumpSupport.cpp:89-89 | An encoded chunk is its length, type, data and the CRC of type and data, byte by byte |
| `ThreadPool.FourThreads` | Tools/DumpRenderTree/JavaScriptThreading.cpp:63-145 | In every reachable state from start until stop clears it, the thread set is the set of threads not detached and has four members |
| `ThreadPool.CopiedFour` | Tools/DumpRenderTree/JavaScriptThreading.cpp:142-145 | The size assertion in stop holds for every order in which the set is copied |
| `ThreadPool.StepKeeps` | Tools/DumpRenderTree/JavaScriptThreading.cpp:63-155 | Every step of every thread, and of start and stop, keeps the invariant |
| `ThreadPool.ThreadGoesRound` | Tools/DumpRenderTree/JavaScriptThreading.cpp:83-107 | While the flag is unset, a thread that does not respawn is back where it was after four steps, and nothing has changed |
| `ThreadPool.AtMostFourMore` | Tools/DumpRenderTree/JavaScriptThreading.cpp:99-114 | From every reachable state with the flag set, at most four more threads are created in any interleaving |
| `ThreadPool.ThreadsExit` | Tools/DumpRenderTree/JavaScriptThreading.cpp:99-121 | After the flag the threads together take no more steps than a measure of their states, which every thread step decreases |
| `ThreadPool.LiveThreadCanStep` | Tools/DumpRenderTree/JavaScriptThreading.cpp:99-121 | The measure is zero exactly when every thread has exited |
| `ThreadPool.StopReturns` | Tools/DumpRenderTree/JavaScriptThreading.cpp:99-155 | Every run from a reachable state with the flag set has a bounded length, and it cannot be continued exactly when stop has returned and every thread has exited |
| `ThreadPool.StepUsesOne` | Tools/DumpRenderTree/JavaScriptThreading.cpp:99-155 | Once the flag is set, every step of a thread or of stop uses up at least one of the steps left |
| `ThreadPool.StopWaitsForJoinable` | Tools/DumpRenderTree/JavaScriptThreading.cpp:140-148 | stop waits for joinable threads only, in every run from the copy on, exactly when no thread is between seeing the flag unset and acting on it at the copy |
| `ThreadPool.WindowCanBeOpen` | Tools/DumpRenderTree/JavaScriptThreading.cpp:99-138 | A reachable state in which stop has set the flag while thread 0 has seen it unset and not acted yet |
| `ThreadPool.DetachedIsWaitedFor` | Tools/DumpRenderTree/JavaScriptThreading.cpp:99-148 | A reachable state in which stop is waiting for a thread that has detached itself |
| `ThreadPool.CopiedThreadsAreLeaving` | Tools/DumpRenderTree/JavaScriptThreading.cpp:147-153 | When stop clears the set every copied thread has exited or is detached and about to |
| `ThreadPool.AliveAtClear` | Tools/DumpRenderTree/JavaScriptThreading.cpp:99-153 | When stop clears the set, a thread that is still alive is detached and on its way out, or was created after the copy, is not detached and will not respawn; as many threads were created after the copy as copied threads detached themselves |
| `ThreadPool.DetachedOutlives` | Tools/DumpRenderTree/JavaScriptThreading.cpp:99-153 | From every state in which stop waits and a thread has seen the flag unset, a run leads to where stop clears the set while that thread, one of those waited for, is still on its way out |
| `ThreadPool.ReplacementsCounted` | Tools/DumpRenderTree/JavaScriptThreading.cpp:104-114 | While stop waits, the threads created since the copy are as many as the copied threads that have detached themselves |
| `ThreadPool.OnlyLeavingRemain` | Tools/DumpRenderTree/JavaScriptThreading.cpp:140-153 | In every run from the copy to the clearing only threads on their way out are left, exactly when no thread was between seeing the flag unset and acting on it at the copy |
| `Glob.ConvertToSimpleRegexp` | Source/BrowserApp/extensions/addons.c:1345-1395 | The buffer of 2 * len + 2 characters holds the converted pattern and at least one terminating NUL |
| `Glob.ConvertParses` | Source/BrowserApp/extensions/addons.c:1359-1393 | The converted pattern is a regular expression with one item for each character that is not a space |
| `Glob.SpacesTakenOut` | Source/BrowserApp/extensions/addons.c:1387-1388 | Spaces are taken out wherever they are, and nothing else |
| `Glob.GlobLanguage` | Source/BrowserApp/extensions/addons.c:1413-1413 | The language of the parsed regular expression is the set of strings the glob matches |
| `Glob.ConvertedMatches` | Source/BrowserApp/extensions/addons.c:1345-1395 | For every pattern and URI, matching with the converted pattern is matching a prefix of the URI with the glob, its spaces removed |
| `Glob.ConvertedMatchesPlain` | Source/BrowserApp/extensions/addons.c:1345-1395 | In a URI without line breaks a star stands for any stretch of characters |
| `UserScripts.ReadLine` | Source/BrowserApp/extensions/addons.c:910-967 | One line opens or closes the metadata block, is rejected, or contributes an include or exclude |
| `ScriptLines.StripMiddle` | Source/BrowserApp/extensions/addons.c:910-910 | A stripped line is what is between white space on both sides, and is empty or starts and ends with something else |
| `ScriptLines.MiddleIsUnique` | Source/BrowserApp/extensions/addons.c:910-910 | There is only one such middle |
| `ScriptLines.LineGives` | Source/BrowserApp/extensions/addons.c:935-950 | Whatever white space is before, between and after them, a line of a keyword and a glob gives that glob |
| `ScriptLines.Markers` | Source/BrowserApp/extensions/addons.c:911-916 | The marker lines, as literals, open and close a metadata block |
| `UserScripts.JsMetadata` | Source/BrowserApp/extensions/addons.c:905-972 | The scan fails exactly when a metadata line asks for something unsupported, with empty lists; otherwise it collects the converted globs of all include and exclude lines, the last first |
| `UserScripts.MayRun` | Source/BrowserApp/extensions/addons.c:1397-1436 | True exactly when there are no includes or one matches, and no exclude matches |
| `UserScripts.SkipElement` | Source/BrowserApp/extensions/addons.c:1438-1448 | An element is skipped exactly when it is disabled, broken or not admitted |
| `UserScripts.PatternsCover` | Source/BrowserApp/extensions/addons.c:1410-1434 | A collected pattern matches exactly when a line's glob covers the URI, and none is collected exactly when no line mentions the keyword |
| `UserScripts.ScriptRuns` | Source/BrowserApp/extensions/addons.c:905-1448 | From lines to decision: an enabled script runs exactly when no metadata line is unsupported, there is no include line or one covers the URI, and no exclude line covers it |
| `ScriptLines.IncludeRuns` | Source/BrowserApp/extensions/addons.c:905-1448 | An enabled script whose metadata, written as literal lines, is one include line runs exactly on the URIs of which its glob matches a prefix |
| `ScriptLines.ExcludeRuns` | Source/BrowserApp/extensions/addons.c:905-1448 | With one exclude line it runs exactly on the other URIs |
| `ScriptLines.RequireNeverRuns` | Source/BrowserApp/extensions/addons.c:917-933 | With a require or resource line it runs nowhere |
| `UserScripts.OrderIsIrrelevant` | Source/BrowserApp/extensions/addons.c:905-1448 | However lines are rearranged between the lines that open and close metadata blocks, the script runs on the same pages |
| `UserScripts.SameGlobs` | Source/BrowserApp/extensions/addons.c:910-955 | Such a rearrangement keeps which globs the include and exclude lines give |
| `UserScripts.SameRejection` | Source/BrowserApp/extensions/addons.c:917-935 | Such a rearrangement keeps whether some metadata line is unsupported |
| `UserScripts.NeighboursCommute` | Source/BrowserApp/extensions/addons.c:905-1448 | Exchanging two neighbouring lines that neither open nor close a block changes nothing |
| `UserScripts.BoundaryMatters` | Source/BrowserApp/extensions/addons.c:911-916 | An include line moved behind the line that closes the block no longer counts |
| `UserStyles.LookAt` | Source/BrowserApp/extensions/addons.c:1097-1143 | One turn of the loop, with its reads inside the buffer, is one step of the state machine |
| `UserStyles.Turn` | Source/BrowserApp/extensions/addons.c:1091-1143 | One turn of the loop normalises its character in place and is one step of the state machine |
| `UserStyles.Flatten` | Source/BrowserApp/extensions/addons.c:1085-1144 | The loop computes the state machine's output; in the buffer line breaks have become spaces and single quotes double quotes, and nothing else has changed |
| `UserStyles.ScanIsClean` | Source/BrowserApp/extensions/addons.c:1091-1096 | For every input the output holds no line break and no single quote and is not longer than the input |
| `StyleSheets.PlainStyle` | Source/BrowserApp/extensions/addons.c:1091-1096 | In a style sheet without at-signs, comments and neighbouring blanks, the output is the input character by character, with a double quote for a single quote and a space for a line break |
| `StyleSheets.BlankRun` | Source/BrowserApp/extensions/addons.c:1136-1139 | A run of spaces and line breaks gives one space, or none after a space |
| `StyleSheets.StyleIsFlattened` | Source/BrowserApp/extensions/addons.c:1083-1144 | A style sheet of text, comments and at-blocks flattens to its text and the bodies of its at-blocks, without comments, runs of spaces collapsed, if its comments meet the condition of CommentIsDropped and its heads that of HeadOpensBlock |
| `StyleSheets.HeadOpensBlock` | Source/BrowserApp/extensions/addons.c:1097-1119 | For every head in which no brace comes after the first '-' or 'n' and comments are opened at most once more: whatever is before, inside and after the at-block, its frame is dropped and its body kept exactly when there is a '-' or an 'n' in the head, be it in a comment |
| `StyleSheets.PlainHeadOpensBlock` | Source/BrowserApp/extensions/addons.c:1097-1119 | For every head without a brace and without comments the same holds, with the '-' or 'n' in its text |
| `StyleSheets.AtSignWithout` | Source/BrowserApp/extensions/addons.c:1097-1105 | After an at-sign all text without a '-', an 'n' and a comment is lost |
| `StyleSheets.MediaIsLost` | Source/BrowserApp/extensions/addons.c:1097-1105 | A media block and what follows it flatten to nothing |
| `StyleSheets.BodyIsKept` | Source/BrowserApp/extensions/addons.c:1106-1119 | For every body without comments: whatever is before and after it, the body is put out and the brace after it ends the at-block exactly when its last rule is closed and the first brace that ends the at-block for the machine, if it is inside the body, is followed by nothing but braces there |
| `StyleSheets.RulesInRules` | Source/BrowserApp/extensions/addons.c:1112-1119 | A rule inside a rule is kept if it comes last in the body, and not if text follows the outer rule |
| `StyleComments.CommentIsDropped` | Source/BrowserApp/extensions/addons.c:1097-1143 | For every inside of a comment, previous character and at-block state, in text, heads and bodies: reading the comment makes no difference to anything that can follow exactly when it is opened at most once more, leaves the at-block state as it was, has no star behind it, and does not close early, or not so that any character is put out |
| `StyleComments.CommentScan` | Source/BrowserApp/extensions/addons.c:1097-1143 | What any comment puts out and the state it leaves behind, in closed form, whatever follows it |
| `StyleComments.TextScan` | Source/BrowserApp/extensions/addons.c:1097-1143 | What any text in which no comment opens puts out and the state it leaves behind, in closed form |
| `StyleComments.CommentSwallows` | Source/BrowserApp/extensions/addons.c:1121-1143 | If the machine counts three or more openings in a comment, nothing that follows is put out, only what an early close has let through |
| `StyleComments.AtSignMutes` | Source/BrowserApp/extensions/addons.c:1097-1100 | An at-sign in a comment mutes what follows |
| `StyleComments.StarMutes` | Source/BrowserApp/extensions/addons.c:1121-1122 | A star directly behind a comment mutes what follows |
| `StyleComments.SlashShows` | Source/BrowserApp/extensions/addons.c:1129-1134 | A comment that starts with a slash is closed early and its inside put out |
| `StyleComments.OpeningsMute` | Source/BrowserApp/extensions/addons.c:1121-1128 | Two openings inside a comment mute what follows |
| `StyleComments.SlashAndOpening` | Source/BrowserApp/extensions/addons.c:1121-1134 | A comment that is closed early and opened again at once is dropped all the same |
| `WorkQueueRuns.ArrRefines` | Tools/DumpRenderTree/WorkQueue.cpp:53-105 | Every operation on the array and its indices is the operation on the abstract queue, whatever stale slots hold |
| `WorkQueueRuns.ArrRuns` | Tools/DumpRenderTree/WorkQueue.cpp:53-105 | In every run, also re-entered from an item's invoke, items are invoked in order and at most once, and each is deleted once or is pending or being invoked |
| `WorkQueueRuns.DeqRefines` | Tools/WebKitTestRunner/WorkQueueManager.cpp:111-126 | Every operation on the deque and its flag is the operation on the abstract queue |
| `WorkQueueRuns.DeqRuns` | Tools/WebKitTestRunner/WorkQueueManager.cpp:111-225 | The same order and ownership hold in every run of the deque queue |
| `WorkQueueRuns.OwnedStep` | Tools/DumpRenderTree/WorkQueue.cpp:53-105 | Each operation keeps every item in exactly one place |
| `WorkQueueRuns.OrderedStep` | Tools/DumpRenderTree/WorkQueue.cpp:66-105 | Each operation keeps the order of arrival |
| `WorkQueueRuns.FrozenThenAdd` | Tools/DumpRenderTree/WorkQueue.cpp:53-64 | An item added right after the frozen flag is set to a value is deleted if that value is true, and appended otherwise |
| `WorkQueueRuns.FullQueue` | Tools/DumpRenderTree/WorkQueue.cpp:53-64 | An item can be added exactly while fewer than 1024 have been stored since the last clear |
| `WorkQueueRuns.LoadThenAdd` | Tools/WebKitTestRunner/WorkQueueManager.cpp:111-225 | After a turn that started a load an added item is deleted, and after a clear it is kept |
| `WorkQueues.BatchIsShortest` | Tools/DumpRenderTree/WorkQueue.cpp:96-101 | A batch is the shortest prefix that ends in a load, or everything if nothing loads |
| `WorkQueues.WorkQueue.Queue` | Tools/DumpRenderTree/WorkQueue.cpp:53-64 | An item is appended, or deleted if the queue is frozen; this is the Add step of the array machine |
| `WorkQueues.WorkQueue.Dequeue` | Tools/DumpRenderTree/WorkQueue.cpp:66-74 | The first item is taken, or nothing from an empty queue |
| `WorkQueues.WorkQueue.Count` | Tools/DumpRenderTree/WorkQueue.cpp:76-79 | The number of pending items |
| `WorkQueues.WorkQueue.Clear` | Tools/DumpRenderTree/WorkQueue.cpp:81-90 | Exactly the pending items are deleted, in order; this is the Clear step of the array machine |
| `WorkQueues.WorkQueue.DeleteLive` | Tools/DumpRenderTree/WorkQueue.cpp:83-86 | The loop deletes the live items and empties their slots only |
| `WorkQueues.WorkQueue.ProcessOne` | Tools/DumpRenderTree/WorkQueue.cpp:97-100 | One turn of the loop invokes and deletes the first item, and is a run of the array machine |
| `WorkQueues.WorkQueue.ProcessWork` | Tools/DumpRenderTree/WorkQueue.cpp:92-105 | One call invokes and deletes exactly one batch, says whether no load was started, and is a run of the array machine from call to return |
| `WorkQueues.WorkQueueManager.Enqueue` | Tools/WebKitTestRunner/WorkQueueManager.cpp:215-225 | An item is appended, or deleted while a load is waited for; this is the Add step of the deque machine |
| `WorkQueues.WorkQueueManager.ClearWorkQueue` | Tools/WebKitTestRunner/WorkQueueManager.cpp:111-115 | All pending items are deleted and the flag is reset; this is the Clear step of the deque machine |
| `WorkQueues.WorkQueueManager.ProcessWorkQueue` | Tools/WebKitTestRunner/WorkQueueManager.cpp:117-126 | The same batch as the array takes; the flag stays set while a load is waited for; the call is a run of the deque machine |
| `WorkQueues.WorkQueueManager.ProcessFirst` | Tools/WebKitTestRunner/WorkQueueManager.cpp:120-123 | One turn of the loop invokes and deletes the first item, and is a run of the deque machine |
| `Commands.CommandTokenizer.constructor` | Tools/DumpRenderTree/DumpRenderTreeCommon.cpp:12-17 | A new tokenizer has the line's tokens before it: its pieces between quotes up to the first empty one |
| `Commands.CommandTokenizer.Pump` | Tools/DumpRenderTree/DumpRenderTreeCommon.cpp:30-40 | Reading on to the next separator leaves the pieces after the current one |
| `Commands.CommandTokenizer.Next` | Tools/DumpRenderTree/DumpRenderTreeCommon.cpp:42-49 | The next token is returned and the others remain |
| `Commands.ParseInputLine` | Tools/DumpRenderTree/DumpRenderTreeCommon.cpp:62-85 | The loop gives the outcome that the line's tokens determine |
| `Commands.BarePath` | Tools/DumpRenderTree/DumpRenderTree.h:64-71 | A line without quotes is a path without pixels and with a time limit of 30000 ms; an empty line dies |
| `Commands.TimeoutLine` | Tools/DumpRenderTree/DumpRenderTreeCommon.cpp:74-76 | A path and --timeout, spelled out, need a number, and it becomes the time limit |
| `Commands.PixelLine` | Tools/DumpRenderTree/DumpRenderTreeCommon.cpp:77-80 | A path and -p or --pixel-test, spelled out, ask for pixels, with or without a hash |
| `Commands.OtherOption` | Tools/DumpRenderTree/DumpRenderTreeCommon.cpp:81-82 | Every other option dies |
| `Commands.TokensFrom` | Tools/DumpRenderTree/DumpRenderTreeCommon.cpp:30-40 | The tokens from a position are the piece up to the next separator and those after it, or none if that piece is empty |
| `Commands.AtoiReads` | Tools/DumpRenderTree/DumpRenderTreeCommon.cpp:75-75 | A printed integer is read back |
| `Commands.AtoiReadsOn` | Tools/DumpRenderTree/DumpRenderTreeCommon.cpp:75-75 | A number is read up to the first character that is not a digit, with or without a sign |
| `Commands.AtoiPasses` | Tools/DumpRenderTree/DumpRenderTreeCommon.cpp:75-75 | White space before a number is passed over |
| `Commands.TokensOfJoin` | Tools/DumpRenderTree/DumpRenderTreeCommon.cpp:30-40 | Splitting undoes joining for non-empty tokens without quotes |
| `Commands.PrintRoundTrip` | Tools/DumpRenderTree/DumpRenderTreeCommon.cpp:62-85 | Printing a command and parsing it gives the command back, for a non-empty path without quotes, any timeout, and a hash without quotes only where pixels are dumped |
| `RegExpStrings.ScanString` | Source/JavaScriptCore/testRegExp.cpp:266-330 | The loop computes the specified scan and reads inside the buffer |
| `RegExpStrings.EscapeScan` | Source/JavaScriptCore/testRegExp.cpp:273-317 | What a backslash and each byte other than u are scanned to: 0, a, b, f, n, r, t and v stand for control characters, every other byte for itself, sign-extended to 16 bits |
| `RegExpStrings.ByteScan` | Source/JavaScriptCore/testRegExp.cpp:271-326 | For a 7-bit terminator, any byte other than it and the backslash is scanned to itself, sign-extended to 16 bits |
| `RegExpStrings.EscapeRoundTrip` | Source/JavaScriptCore/testRegExp.cpp:266-330 | For a 7-bit terminator other than a backslash, every string of 16-bit units is read back from its escaped form, up to the terminator that follows it |
| `RegExpStrings.AllReadable` | Source/JavaScriptCore/testRegExp.cpp:266-330 | Every string can be written down for a terminator exactly when it is a 7-bit character other than a backslash |
| `RegExpStrings.NegativeIsNeverFound` | Source/JavaScriptCore/testRegExp.cpp:271-320 | A negative terminator char is never found |
| `RegExpStrings.BackslashIsNeverRead` | Source/JavaScriptCore/testRegExp.cpp:319-323 | With a backslash as terminator no string with a backslash is read |
| `OutputLines.DeliverComplete` | Tools/gtk/common.py:143-146 | The inner loop delivers the complete lines of the buffer and keeps the rest |
| `OutputLines.ParseOutputLines` | Tools/gtk/common.py:119-150 | What is delivered are the lines of the concatenated non-empty chunks, however they were cut, when the end of the stream follows them |
| `OutputLines.LinesAreLines` | Tools/gtk/common.py:142-150 | The lines concatenate to the text, and each ends in its only newline, except perhaps the last |
| `OutputLines.LinesAreUnique` | Tools/gtk/common.py:142-150 | There is only one way to cut a text into such lines |

## Left out

- Foreign code is a parameter: the identifier-part character class of the lexer, the table of observed keyword weights (any table is allowed, so that of lines 41-60 is one case), the characters GRegex treats as line breaks, the hexadecimal reader `sscanf`, the room left in standard output, and the outcome of `rand`.
- Keyword weights are real numbers, not floating point, so rounding in sums is not captured; the library sort is modelled as a stable insertion sort.
- KeywordGenerator.FillOutTrie: the attributes that `fillOut` adds to the objects are fields of a new value, so their update in place is not captured; `insert` and `coalesce` are modelled on objects.
- KeywordGenerator.PrintSubTree: emits a syntax tree instead of the text of C statements.
- KeywordLookup.ParseKeywordCorrect: speaks of keywords made of identifier characters below 0x80, as all keywords of the language are; the trie lemmas hold for any 16-bit units.
- The parser of the keyword file.
- PackedCompare.CompareExact: does not model the macros for big-endian CPUs. The four-unit macro there is defined by itself, and the only user of four-unit packing is x86-64, which is little-endian.
- ThreadPool.StopWaitsForJoinable: waiting for a detached thread is modelled as not blocking; what the thread library then does is not part of this model. The JavaScript work of the threads, failing thread creation and a second start are left out.
- Png.PrintPng: standard output takes bytes until its room is used up, so that a short write followed by a successful one is not covered; an image shorter than its IHDR chunk, of which the code would read past the end, is excluded.
- Glob.ConvertedMatches: regular expressions are parsed in the fragment of atoms and stars after an anchor, which contains every converted pattern; a line break is a single character.
- UserScripts.JsMetadata: names and descriptions are not collected, and a file that cannot be read is not modelled.
- StyleSheets.StyleIsFlattened: style sheets with a comment, a head or a body that the code misreads are outside it; what happens to those is in CommentScan, HeadOpensBlock and BodyIsKept.
- StyleSheets.HeadOpensBlock: leaves out heads with a comment that the machine counts as opened three or more times, for which CommentSwallows speaks, and heads with a star directly after a comment.
- StyleSheets.BodyIsKept: speaks of bodies without comments; bodies with comments are those of StyleIsFlattened.
- The style metadata scanner depends on URI helpers that are not part of this model.
- WorkQueueRuns.ArrRuns: items are handed to the array only while fewer than 1024 have been stored since the last clear, as `queue` asserts.
- WorkQueues.WorkQueue.ProcessWork: an item does nothing to the queue while it is invoked; runs in which it does are those of WorkQueueRuns. The same holds of WorkQueueManager.ProcessWorkQueue.
- Commands.ParseInputLine: a missing token after `--timeout` is an assertion failure, as in builds with assertions; `atoi` does not overflow.
- OutputLines.ParseOutputLines: errors of select and read are left out.
- The permission-request queues of the test controller and the growing file buffer of the shell.
- Accessibility wrappers, the WebKit C API, run loops, widgets and build scripts.
