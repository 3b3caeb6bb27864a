# Verified models of small algorithms in a WebKit tree

Most of the tree is a browser engine and its ports. Scattered through it are small programs that are easy to
state and hard to get right. Each is modelled here in the form it has in the source, classes with fields that
change and loops where it has them, and proved against a specification. What the source promises is then
proved of the specification, for all inputs or all runs.

| file | what it models |
|---|---|
| `KeywordTrie.dfy`, `KeywordOrder.dfy`, `KeywordCode.dfy`, `KeywordTable.dfy`, `KeywordText.dfy`, `KeywordGenerator.dfy`, `KeywordWeights.dfy` | the keyword recogniser compiler: trie, path compression, ordering by weight, the emitted C as a syntax tree with a meaning, what it owes to the table, its printed lines, and the classes that do it all in place |
| `Lexer.dfy` | `parseIdentifier`, which chooses between the recogniser and a hash table |
| `MersenneTwister.dfy`, `MersenneTwisterLaws.dfy`, `MersenneTwisterGenerator.dfy` | MT19937: the infinite recurrence on 32-bit words, what it is bit by bit and in numbers, and the generator that overwrites an array of 64-bit longs |
| `Gf2.dfy`, `Crc32.dfy`, `Crc32Theory.dfy` | CRC-32: polynomials over GF(2), the shift register, the table-driven program, error detection |
| `Png.dfy` | PNG chunk streams and the text chunk that is inserted into one |
| `Packages.dfy` | the dependency closure of the Cygwin downloader |
| `Coverage.dfy` | merging gcov files |
| `WorkQueue.dfy`, `WorkQueueLaws.dfy` | the work queue of the test harness |
| `ScanString.dfy` | the escape scanner of the regular expression tests |
| `UrlLoader.dfy` | the URL-list driver of the test browser |
| `Words.dfy`, `Binary.dfy`, `Integers.dfy` | machine words, their bits, the numbers they stand for |
| `Options.dfy`, `Arithmetic.dfy` | values that may be missing, a fact about products |

The main results are `KeywordGenerator.GeneratedProgramIsTable` (the generated program computes the keyword
table and compiles exactly for tables of a certain kind), `Lexer.Lexer.ParseIdentifier` (when the lexer is
right), `MersenneTwisterGenerator.Generator.GenrandInt32` with `MersenneTwisterLaws.RecurrenceBits`,
`MersenneTwister.OutputsFixTheRun` and the two never-zero lemmas, `Crc32.CrcComputer.ComputeCrc` with
`Crc32Theory.CrcIsRemainder`, `CollisionIffMultiple` and `DetectsBursts`, `Png.PrintPNG` with
`PayloadInsertsOneChunk`, `Packages.Downloader.AddAll`, `WorkQueue.WorkQueue.Run` with `EveryRunIsFair`,
`ProcessInvokesInOrder` and `WorkQueueLaws.EveryRunAccepts`, and `ScanString.ScannedIffEscaped`.

Two properties one would expect turn out not to hold, and are proved to hold exactly under a condition:

- The lexer should treat an identifier the same way wherever it stands in the input. It does not: the
  recogniser stops at the backslash of a `\u` escape, so `if\u0061` with enough input after it is read as the
  keyword `if`, while `parseIdentifierSlowCase` says that keywords must not be recognised in such an identifier
  (`Source/JavaScriptCore/parser/Lexer.cpp:919`). `Lexer.Lexer.ParseIdentifier` gives the exact condition,
  `Lexer.LexedIsLocal` says what should hold, `Lexer.KeywordIsCutOut` gives the example. The condition also
  covers `ASSERT(shouldCreateIdentifier)`, which the parser avoids: it only asks for no identifier to be created
  where reserved words are ignored as well.
- Every string should have an escaped form that `scanString` reads back. With a backslash as terminator it has
  not, because the terminator is looked for before the escape. `ScanString.EscapableIff` gives the exact condition.
  The program itself never passes a backslash: its two calls pass `/` and a double quote
  (`Source/JavaScriptCore/testRegExp.cpp:318` and `:335`).

In `cov.py` the counter of nested conditionals suggests that a unit-test region is to end at its `#endif`. The
code sets the flag to true there again, so that the region never ends; the model follows the code.

Code units are natural numbers, below 256 or 65536 where that matters. Bytes and machine words are bit-vectors,
so that wrap-around, shifts and masks are those of the source. A field that only records history is ghost.
Source statements that form one loop or one step are sometimes a method of their own (`RekeyChildren`,
`FillChildren`, `Regenerate`, `StoreAndAdvance`, `AddRequirements`, `MergeFile`, `PostProcess`, `InvokeNext`,
`ParseWord` and the like); their comments say which lines they are.

## Model

| member | source | states |
|---|---|---|
| KeywordTrie.LookupAfterInsert | Source/JavaScriptCore/KeywordLookupGenerator.py:98-104 | `insert` gives the inserted text its value and changes the value of no other text |
| KeywordTrie.InsertKeepsSingleEdges | Source/JavaScriptCore/KeywordLookupGenerator.py:102-104 | before compression every edge is one character long, whatever is inserted |
| KeywordTrie.InsertKeepsLive | Source/JavaScriptCore/KeywordLookupGenerator.py:98-104 | insertion leaves no node without a value and without children, so no dead branch is ever emitted |
| KeywordTrie.LastEntryMeaning | Source/JavaScriptCore/KeywordLookupGenerator.py:211-212 | the reference the trie is compared with: the value of the table entry for a text that no later entry overrides; none exactly when no entry is for that text |
| KeywordTrie.BuildIsTable | Source/JavaScriptCore/KeywordLookupGenerator.py:209-212 | for every table and every text, the trie built by the driver holds what the table says, the last entry winning |
| KeywordTrie.CoalesceKeepsFirstUnit | Source/JavaScriptCore/KeywordLookupGenerator.py:107-111 | compression only lengthens prefixes, at the end, so siblings keep distinct first characters and re-keying the dictionary loses no child |
| KeywordTrie.CoalesceKeepsLookup | Source/JavaScriptCore/KeywordLookupGenerator.py:106-121 | the node that `coalesce` returns stands for the same texts and values as the node it was called on, prefixes included |
| KeywordTrie.CoalesceKidsKeepsLookup | Source/JavaScriptCore/KeywordLookupGenerator.py:106-111 | so does the node itself, which is why the driver may discard the value returned for the root |
| KeywordTrie.CoalesceCompresses | Source/JavaScriptCore/KeywordLookupGenerator.py:112-121 | afterwards every node below the root has a value or at least two children |
| KeywordTrie.CompileIsTable | Source/JavaScriptCore/KeywordLookupGenerator.py:209-213 | building and compressing together: the compressed trie is the table, for every text |
| KeywordOrder.SortIsSorted | Source/JavaScriptCore/KeywordLookupGenerator.py:132 | ordering by weight yields heaviest first, keeps exactly the same children, and keeps their total weight |
| KeywordOrder.SortIsStable | Source/JavaScriptCore/KeywordLookupGenerator.py:132 | as Python promises of `sorted`, siblings of equal weight keep their relative order, and none is lost or repeated |
| KeywordOrder.SortFillsOut | Source/JavaScriptCore/KeywordLookupGenerator.py:123-133 | children filled in any dictionary order and then sorted make up what `fillOut` is specified to produce: full prefixes, weights, every child once, heaviest first |
| KeywordCode.CompareIsMatch | Source/JavaScriptCore/KeywordLookupGenerator.py:217-297 | for 8-bit and 16-bit units, with or without alignment, with or without 64-bit loads: each comparison of 1 to 8 units, packed or overlapping, holds exactly when the units agree one by one |
| KeywordCode.WideningIsHarmless | Source/JavaScriptCore/KeywordLookupGenerator.py:149-151 | comparing some matched text again together with what comes next asks nothing more of the input |
| KeywordCode.BranchIsMatch | Source/JavaScriptCore/KeywordLookupGenerator.py:147-159 | once a node is reached, the comparison emitted for a child, widened or not, holds exactly when the word goes on with the prefix of the child |
| KeywordCode.ReadsBelowMaxTokenLength | Source/JavaScriptCore/KeywordLookupGenerator.py:135-185 | every index that occurs in the emitted code is below n if and only if n is at least `maxTokenLength` |
| KeywordCode.CompiledReadsBelow | Source/JavaScriptCore/KeywordLookupGenerator.py:184-185 | the same for the code made from any table without the empty keyword |
| KeywordTable.MaxTokenLengthIsLongest | Source/JavaScriptCore/KeywordLookupGenerator.py:171-185 | `maxTokenLength` is one more than the length of the longest keyword of the table |
| KeywordTable.BoundIsReached | Source/JavaScriptCore/KeywordLookupGenerator.py:184-190 | the bound is needed: on an input of just that length, the longest keyword and a unit that ends it, the evaluation reads the last unit |
| KeywordTable.ShortPrefixesIff | Source/JavaScriptCore/KeywordLookupGenerator.py:106-121 | no edge is compressed to more than eight units if and only if, within any nine consecutive units of a keyword, some prefix is a keyword itself or is continued in two ways: a condition on the table alone |
| KeywordCode.CompilesIffShortEdges | Source/JavaScriptCore/KeywordLookupGenerator.py:159 | there is a COMPARE macro for every emitted comparison if and only if no compressed edge is longer than eight |
| KeywordCode.EmittedCodeLooksUp | Source/JavaScriptCore/KeywordLookupGenerator.py:135-169 | on every node, the emitted code returns what the subtrie holds for the rest of the word, with the right shift and identifier |
| KeywordCode.RecogniserIsTable | Source/JavaScriptCore/KeywordLookupGenerator.py:209-214 | the emitted recogniser returns, for every table, sibling order, target and long enough input, the token of the last entry for the maximal identifier prefix, and IDENT if there is none |
| KeywordText.ParseOfRendered | Source/JavaScriptCore/KeywordLookupGenerator.py:138-169 | the printed lines, read as C with its braces and else-ifs, are the code that was meant |
| KeywordGenerator.Trie.Insert | Source/JavaScriptCore/KeywordLookupGenerator.py:98-104 | the nodes changed in place stand for the trie of the specification after insertion; only this subtree and new nodes are touched |
| KeywordGenerator.Trie.Coalesce | Source/JavaScriptCore/KeywordLookupGenerator.py:106-121 | the node and the node returned stand for the two compressed tries of the specification, although they share their descendants |
| KeywordGenerator.Trie.RekeyChildren | Source/JavaScriptCore/KeywordLookupGenerator.py:107-111 | the new dictionary holds every compressed child under its new prefix, in whatever order the old one is traversed |
| KeywordGenerator.Trie.Merge | Source/JavaScriptCore/KeywordLookupGenerator.py:117-121 | the new node stands for this node joined with its only child, whose children it takes over; nothing else changes |
| KeywordGenerator.Trie.FillOut | Source/JavaScriptCore/KeywordLookupGenerator.py:123-133 | the fields set in place are what the specification demands, and the trie itself is unchanged |
| KeywordGenerator.Trie.SortedByWeight | Source/JavaScriptCore/KeywordLookupGenerator.py:132 | the nodes come out in the order of `SortByWeight`, which SortIsSorted and SortIsStable describe |
| KeywordGenerator.Trie.MaxLength | Source/JavaScriptCore/KeywordLookupGenerator.py:171-177 | the length of the longest full prefix in the subtree |
| KeywordGenerator.Trie.PrintSubTreeAsC | Source/JavaScriptCore/KeywordLookupGenerator.py:135-169 | the lines printed render the code of the specification |
| KeywordGenerator.PrintAsC | Source/JavaScriptCore/KeywordLookupGenerator.py:179-207 | the constant is the longest full prefix plus one; both specialisations of `parseKeyword` have the same body |
| KeywordGenerator.Generate | Source/JavaScriptCore/KeywordLookupGenerator.py:209-300 | for every table, the whole run prints the code for the table, compressed, filled and ordered; no assumption on the keywords |
| KeywordGenerator.GeneratedProgramIsTable | Source/JavaScriptCore/KeywordLookupGenerator.py:179-300 | the lines of the generated file parse as code that reads only below `maxTokenLength`, compiles if and only if the table satisfies the condition of `KeywordTable.ShortPrefixesIff`, and then computes the keyword table on the maximal identifier prefix of every input that is long enough |
| KeywordWeights.WeightIsSum | Source/JavaScriptCore/KeywordLookupGenerator.py:123-133 | the weight of a node is the sum of the weights of the keywords that go through it |
| KeywordWeights.KeywordsOfNode | Source/JavaScriptCore/KeywordLookupGenerator.py:135-169 | and these are just the keywords of the table that start with its full prefix |
| KeywordWeights.GeneratedBranchesAreOrdered | Source/JavaScriptCore/KeywordLookupGenerator.py:123-169 | in the generated program, of two branches of one chain the earlier has at least the weight of the keywords that go through the later, when only keywords have a weight |
| Lexer.GeneratedRecogniserFits | Source/JavaScriptCore/parser/Lexer.cpp:763-764 | the output of the generator meets what `parseIdentifier` relies on |
| Lexer.ShiftIsInside | Source/JavaScriptCore/parser/Lexer.cpp:566-572 | a unit follows every recognised keyword, so the read in `internalShift`, which does not look for the end, is in bounds |
| Lexer.Lexer.ParseKeyword | Source/JavaScriptCore/parser/Lexer.cpp:566-572 | run on enough input, finds the table entry for the maximal identifier prefix and moves past it exactly when there is one |
| Lexer.Lexer.ParseIdentifier | Source/JavaScriptCore/parser/Lexer.cpp:759-806 | returns the lexeme that stands there if and only if the recogniser was not run on a keyword followed by a backslash and, in the instance that creates no identifier, the hash table is not needed; in every case what it returns, by the entry of the word, the unit after it, the units left and the flags: `RESERVED_IF_STRICT` words are reserved in strict code only, other keywords always; the position afterwards and the identifier recorded |
| Lexer.LexedIsLocal | Source/JavaScriptCore/parser/Lexer.cpp:771-806 | the lexeme that stands somewhere depends only on its own units and the one that ends it, not on how much input follows |
| Lexer.KeywordIsCutOut | Source/JavaScriptCore/parser/Lexer.cpp:763-779 | the failing family is not empty: with any table that holds `if`, `if\u0061` is one identifier, and is cut short exactly when at least `maxTokenLength` units are left |
| MersenneTwister.TemperIsInjective | Source/ThirdParty/mt19937ar.c:129-133 | different words are tempered into different outputs |
| MersenneTwisterLaws.RecurrenceBits | Source/ThirdParty/mt19937ar.c:113-122 | the recurrence bit by bit, with literal exponents and distances: bit k of word n + 624 from words n + 397, n + 1 and n |
| MersenneTwisterLaws.RunStarts | Source/ThirdParty/mt19937ar.c:113-122 | the first 624 words are those of the block |
| MersenneTwisterLaws.UntemperUndoes | Source/ThirdParty/mt19937ar.c:129-133 | an inverse of tempering, line by line, takes outputs back to words |
| MersenneTwisterLaws.SeedStateIs | Source/ThirdParty/mt19937ar.c:57-69 | as numbers, each seeded word is 1812433253 times the folded word before it plus its index, modulo 2^32 |
| MersenneTwisterLaws.FirstPassIs | Source/ThirdParty/mt19937ar.c:78-88 | as numbers modulo 2^32, what a step of the first loop over the key stores, from which words, and where; it starts from seed 19650218 |
| MersenneTwisterLaws.SecondPassIs | Source/ThirdParty/mt19937ar.c:89-95 | the same of the second loop, which takes up the slots where the first stopped |
| MersenneTwisterLaws.KeyStateIs | Source/ThirdParty/mt19937ar.c:97 | after 623 steps of it the first word is replaced |
| MersenneTwister.StepIsReversible | Source/ThirdParty/mt19937ar.c:113-122 | two generators are in the same 19937-bit state exactly when they are so one step later |
| MersenneTwister.SameStateForever | Source/ThirdParty/mt19937ar.c:113-122 | the same for any number of steps |
| MersenneTwister.OutputsFixTheRun | Source/ThirdParty/mt19937ar.c:107-135 | two runs that agree on 624 consecutive outputs, anywhere in their blocks, agree on all later words and, the first word apart, on all earlier ones |
| MersenneTwister.ZeroStateIsOriginal | Source/ThirdParty/mt19937ar.c:113-122 | a run is in the all-zero state somewhere exactly when it started there |
| MersenneTwister.SeededRunIsNeverZero | Source/ThirdParty/mt19937ar.c:57-69 | after `init_genrand`, for every seed, no state of the run is all zero |
| MersenneTwister.KeyedRunIsNeverZero | Source/ThirdParty/mt19937ar.c:75-98 | after `init_by_array`, for every key, no state of the run is all zero |
| MersenneTwister.FirstPassRewritesAll | Source/ThirdParty/mt19937ar.c:80-88 | after the first mixing loop every slot from 1 to 623 holds a word that the loop stored there |
| MersenneTwister.KeyWordMatters | Source/ThirdParty/mt19937ar.c:80-88 | every word of the key is used: where two keys of one length first differ, the loop stores different words |
| MersenneTwisterGenerator.LongNextIsNext | Source/ThirdParty/mt19937ar.c:114-115 | computed in 64-bit longs, a recurrence step on 32-bit words gives the 32-bit word |
| MersenneTwisterGenerator.LongTemperIsTemper | Source/ThirdParty/mt19937ar.c:127-133 | so does tempering, although the left shifts spill over 32 bits |
| MersenneTwisterGenerator.LongSeedNextIsSeedNext | Source/ThirdParty/mt19937ar.c:61-66 | so does a seeding step, masked |
| MersenneTwisterGenerator.LongMix1IsMix1 | Source/ThirdParty/mt19937ar.c:82-84 | so does a step of the first mixing loop, for keys of any 64 bits |
| MersenneTwisterGenerator.LongMix2IsMix2 | Source/ThirdParty/mt19937ar.c:90-92 | so does a step of the second, whose subtraction may borrow |
| MersenneTwisterGenerator.Generator.InitGenrand | Source/ThirdParty/mt19937ar.c:57-69 | leaves the seeded block and the index at its end |
| MersenneTwisterGenerator.Generator.InitByArray | Source/ThirdParty/mt19937ar.c:75-98 | leaves the block of the specification, with every array access in bounds |
| MersenneTwisterGenerator.Generator.MixAgain | Source/ThirdParty/mt19937ar.c:89-95 | the second loop takes i back to where it started |
| MersenneTwisterGenerator.Generator.Regenerate | Source/ThirdParty/mt19937ar.c:107-125 | the block overwritten in place by the three loops is the next 624 words of the recurrence |
| MersenneTwisterGenerator.Generator.GenrandInt32 | Source/ThirdParty/mt19937ar.c:101-136 | call number k after initialisation returns the tempering of word 624+k-1 of the recurrence; without initialisation the seed is 5489 |
| Crc32.CrcComputer.MakeCrcTable | Tools/DumpRenderTree/CyclicRedundancyCheck.cpp:36-48 | entry i is the register after eight steps from i |
| Crc32.CrcComputer.ComputeCrc | Tools/DumpRenderTree/CyclicRedundancyCheck.cpp:50-63 | on every call, first or later, the table-driven result equals the bit-at-a-time CRC |
| Crc32.TableStep | Tools/DumpRenderTree/CyclicRedundancyCheck.cpp:60-61 | one table lookup does the work of shifting eight bits in |
| Crc32.RegisterOfWord | Tools/DumpRenderTree/CyclicRedundancyCheck.cpp:40-45 | shifting a word in bit by bit is xoring it in at once and then stepping |
| Crc32.StepIsLinear | Tools/DumpRenderTree/CyclicRedundancyCheck.cpp:41-44 | a register step is linear over exclusive or |
| Crc32.StepIsInjective | Tools/DumpRenderTree/CyclicRedundancyCheck.cpp:41-44 | a register step is invertible |
| Crc32Theory.PolynomialIsGenerator | Tools/DumpRenderTree/CyclicRedundancyCheck.cpp:42 | the constant -306674912 spells the generator polynomial of section 3.4 of RFC 2083, reflected |
| Crc32Theory.RegisterDivides | Tools/DumpRenderTree/CyclicRedundancyCheck.cpp:36-63 | the register is the remainder of long division, from any start value |
| Crc32Theory.CrcIsRemainder | Tools/DumpRenderTree/CyclicRedundancyCheck.cpp:50-63 | the CRC is the complement of the one and only remainder modulo the generator of the buffer with all-ones preset |
| Crc32Theory.RegisterIsLinear | Tools/DumpRenderTree/CyclicRedundancyCheck.cpp:59-61 | the register of a bitwise sum is the sum of the registers |
| Crc32Theory.CollisionIffMultiple | Tools/DumpRenderTree/CyclicRedundancyCheck.cpp:50-63 | buffers of one length have the same CRC if and only if their difference times x^32 is a multiple of the generator |
| Crc32Theory.RegisterIsInjective | Tools/DumpRenderTree/CyclicRedundancyCheck.cpp:59-61 | whatever follows, different registers stay different |
| Crc32Theory.WindowIsInjective | Tools/DumpRenderTree/CyclicRedundancyCheck.cpp:59-61 | different bit strings of the same length, at most 32, leave different registers |
| Crc32Theory.DetectsBursts | Tools/DumpRenderTree/CyclicRedundancyCheck.cpp:50-63 | distinct buffers whose bits differ only within 32 consecutive positions have distinct CRCs |
| Crc32Theory.DetectsFourByteWindows | Tools/DumpRenderTree/CyclicRedundancyCheck.cpp:50-63 | the same for differences within four consecutive bytes |
| Png.ParseOfSerialized | Tools/DumpRenderTree/PixelDumpSupport.cpp:91 | every chunk list that is written out reads back as itself |
| Png.SerializedOfParse | Tools/DumpRenderTree/PixelDumpSupport.cpp:91 | every stream that reads as chunks is exactly those chunks written out |
| Png.TextReadsBack | Tools/DumpRenderTree/PixelDumpSupport.cpp:92 | a reader that splits at the first zero byte gets keyword and text back |
| Png.CommentBytes | Tools/DumpRenderTree/PixelDumpSupport.cpp:92-104 | the literal prefix, the checksum and the CRC make up one text chunk with declared length 41 |
| Png.CrcReadsBack | Tools/DumpRenderTree/PixelDumpSupport.cpp:83-86 | the four bytes, read most significant first, are the number |
| Png.CrcBytesOfWord | Tools/DumpRenderTree/PixelDumpSupport.cpp:83-86 | and every four bytes are those of the number they spell |
| Png.MostSignificantFirst | Tools/DumpRenderTree/PixelDumpSupport.cpp:83-86 | the bytes stand in order of significance, the highest first |
| Png.AppendIntToVector | Tools/DumpRenderTree/PixelDumpSupport.cpp:79-87 | appends the number, most significant byte first |
| Png.ConvertChecksumToPNGComment | Tools/DumpRenderTree/PixelDumpSupport.cpp:89-105 | appends exactly the serialised text chunk, CRC over type and data included |
| Png.PayloadInsertsOneChunk | Tools/DumpRenderTree/PixelDumpSupport.cpp:107-138 | for every stream that starts with a chunk of 13 bytes, the output parses as the same chunks with the comment inserted after the first |
| Png.PayloadStaysWellFormed | Tools/DumpRenderTree/PixelDumpSupport.cpp:114-138 | a well-formed PNG stays well formed, and the checksum can be read back from its second chunk |
| Png.PrintPNG | Tools/DumpRenderTree/PixelDumpSupport.cpp:114-138 | announces 53 bytes more than the image has, and writes the start of the payload, as much as there is room for; if that is all, the output consists of the first 33 bytes, 53 bytes and the rest, and to a reader it is the chunk list with one literal text chunk after the first |
| Png.WriteRest | Tools/DumpRenderTree/PixelDumpSupport.cpp:127-137 | the loop of 32768-byte writes ends, having written the rest in order as far as there is room |
| Packages.ReachIsLeastClosedSet | Tools/CygwinDownloader/cygwin-downloader.py:117-129 | the closure is the least set that holds the known roots and the known requirements of its members |
| Packages.ClosedSetIsWhiteReach | Tools/CygwinDownloader/cygwin-downloader.py:117-125 | a set of reached packages closed under new requirements is everything that can be reached past the visited ones |
| Packages.Downloader.AddPackageAndDependencies | Tools/CygwinDownloader/cygwin-downloader.py:117-125 | adds and flags exactly the known packages that can be reached without passing through one added before; ends on cyclic graphs too |
| Packages.Downloader.AddAll | Tools/CygwinDownloader/cygwin-downloader.py:127-129 | exactly those packages are to be downloaded, and are flagged, to which a chain of requirements through known packages leads from one flagged at first, though flags are set while they are being read |
| Packages.Downloader.DownloadAll | Tools/CygwinDownloader/cygwin-downloader.py:131-135 | the k-th message gives k, the announced total and a selected package, and there are as many messages as the total |
| Packages.SelectedInOrder | Tools/CygwinDownloader/cygwin-downloader.py:132-135 | the selected packages keep the order of the sorted list |
| Packages.SelectedIsAll | Tools/CygwinDownloader/cygwin-downloader.py:131-135 | as many packages are selected as the set has members |
| Coverage.ParseSourceFile | Tools/CodeCoverage/cov.py:83-108 | a line is test code from the first line that opens a unit-test region, and never stops being so |
| Coverage.MergeLine | Tools/CodeCoverage/cov.py:163-175 | what merging one line does to the state of that line, in terms of counts and sums over all files so far |
| Coverage.MergeFile | Tools/CodeCoverage/cov.py:146-176 | a file of equal length is added to every line, one of another length to none |
| Coverage.FinalState | Tools/CodeCoverage/cov.py:181-195 | every line ends up marked by the sum of its numbers, or as not code if it has none, and no line stays "?????" |
| Coverage.OneFileMark | Tools/CodeCoverage/cov.py:141-195 | with one gcov file each line is marked by its own first field, unless a test region was opened at or above it |
| Coverage.OneMoreFileMark | Tools/CodeCoverage/cov.py:153-195 | one more file of equal length adds its count to the line and makes code of it if it was none; a dash or a file of another length changes nothing |
| Coverage.TotalsCountLines | Tools/CodeCoverage/cov.py:179-194 | the totals are the numbers of lines marked as executed, and as executed or missed |
| Coverage.ScanGcovFiles | Tools/CodeCoverage/cov.py:141-196 | the marks, the total and the covered count of a source file, for any number of gcov files |
| Coverage.OrderDoesNotMatter | Tools/CodeCoverage/cov.py:146-176 | the result does not depend on the order of the files after the first |
| Coverage.CoveredWithinTotal | Tools/CodeCoverage/cov.py:179-194 | covered is at most total, and total at most the number of lines |
| Coverage.MoreFilesCoverMore | Tools/CodeCoverage/cov.py:146-194 | one more file never lowers the covered count or the total |
| WorkQueue.WorkQueue.Queue | Tools/DumpRenderTree/WorkQueue.cpp:56-67 | appends the item, or deletes it if the queue is frozen |
| WorkQueue.WorkQueue.Dequeue | Tools/DumpRenderTree/WorkQueue.cpp:69-77 | hands out the oldest item, and nothing exactly when nothing is pending |
| WorkQueue.WorkQueue.Count | Tools/DumpRenderTree/WorkQueue.cpp:79-82 | the number of pending items |
| WorkQueue.WorkQueue.Clear | Tools/DumpRenderTree/WorkQueue.cpp:84-93 | the loop deletes each pending item once, in order, and the whole array is available again |
| WorkQueue.WorkQueue.Perform | Tools/DumpRenderTree/WorkQueue.cpp:102 | what an item does while it is invoked: the items it adds, and the failed assertion when the array is full |
| WorkQueue.WorkQueue.ProcessWork | Tools/DumpRenderTree/WorkQueue.cpp:95-108 | over the array, does to the queue, and logs, what `AfterProcess` does to a list; ends by the slots left |
| WorkQueue.ProcessInvokesInOrder | Tools/DumpRenderTree/WorkQueue.cpp:95-108 | invokes in order of acceptance, items accepted on the way included; stops right after the first item that starts a load; is done only with the queue drained and no load started; fails only with the array full |
| WorkQueue.InvocationIsSound | Tools/DumpRenderTree/WorkQueue.cpp:100-103 | an invoked item is deleted afterwards, unless its own actions failed an assertion |
| WorkQueue.WorkQueue.Run | Tools/DumpRenderTree/WorkQueue.cpp:56-108 | for every sequence of calls, the queue, the log and whether an assertion failed are those of the reference machine, in which each call and each action of each invocation has its effect |
| WorkQueue.EveryRunIsFair | Tools/DumpRenderTree/WorkQueue.cpp:56-108 | over every run: the accepted items are, in one order, those that have left and those pending; the invoked ones are a subsequence of them; and each occurrence of a submitted item is pending, handed out, or deleted, just once (or running when an assertion failed) |
| WorkQueueLaws.EveryRunAccepts | Tools/DumpRenderTree/WorkQueue.cpp:56-108 | over every run, told from the calls and the actions of the invoked items alone: accepted are the items submitted while the queue is not frozen, refused those submitted while it is, each in order |
| WorkQueueLaws.UnfrozenAcceptsAll | Tools/DumpRenderTree/WorkQueue.cpp:61-66 | if nothing freezes the queue, nothing is refused and every submission is accepted, in order |
| WorkQueueLaws.FrozenRefusesAll | Tools/DumpRenderTree/WorkQueue.cpp:61-64 | while it stays frozen, nothing is accepted and every submission is refused |
| WorkQueueLaws.TakesExactly1024 | Tools/DumpRenderTree/WorkQueue.cpp:39-66 | the assertion fails at the 1025th item after the start or a `clear`, and not before |
| WorkQueueLaws.ClearAndDequeue | Tools/DumpRenderTree/WorkQueue.cpp:69-93 | `clear` deletes what is pending, in order; `dequeue` hands out the first item |
| ScanString.ScanString | Source/JavaScriptCore/testRegExp.cpp:245-309 | returns the index of the terminator, or -1, and appends the text built on the way, for every outcome; no index passes the buffer |
| ScanString.BuiltIsScanned | Source/JavaScriptCore/testRegExp.cpp:245-309 | after a success the text built is the text that was escaped |
| ScanString.ScannedOfRendered | Source/JavaScriptCore/testRegExp.cpp:249-306 | escaped text of any mixture of plain, short and \u escapes, followed by the terminator, scans to the terminator and the text |
| ScanString.PiecesOfScanned | Source/JavaScriptCore/testRegExp.cpp:249-306 | whatever scans successfully is such escaped text up to its terminator |
| ScanString.ScannedIffEscaped | Source/JavaScriptCore/testRegExp.cpp:245-309 | both directions together: success, the index and the text, if and only if |
| ScanString.EscapeRoundTrip | Source/JavaScriptCore/testRegExp.cpp:252-296 | for every terminator but the backslash, every text of 16-bit units has an ASCII escaped form that scans back to it |
| ScanString.WrittenReadsBack | Source/JavaScriptCore/testRegExp.cpp:252-296 | escapes as a person would write them, with the eight letters, self escapes and hexadecimal in any mixture, scan back to the text, for every terminator but the backslash |
| ScanString.BackslashTerminatorIsPlain | Source/JavaScriptCore/testRegExp.cpp:298-302 | with a backslash as terminator there are no escapes: exactly the text before the first backslash is returned |
| ScanString.EscapableIff | Source/JavaScriptCore/testRegExp.cpp:245-309 | exactly when a text can be escaped: the terminator is not the backslash, or the text is ASCII without a backslash |
| UrlLoader.UrlLoader.GetUrl | Tools/QtTestBrowser/urlloader.cpp:123-130 | the next entry of the list, until there are none left |
| UrlLoader.UrlLoader.LoadNext | Tools/QtTestBrowser/urlloader.cpp:64-80 | asks for the next valid entry, passes over the invalid ones before it, and asks for nothing only if no valid one is left; stops all timers and forgets the loading frames; ends by the entries left |
| UrlLoader.NoneBefore | Tools/QtTestBrowser/urlloader.cpp:71-77 | the entry asked for is the first valid one |
| UrlLoader.UrlLoader.CheckIfFinished | Tools/QtTestBrowser/urlloader.cpp:82-86 | the page is reported finished exactly when no frame is counted as loading |
| UrlLoader.UrlLoader.React | Tools/QtTestBrowser/urlloader.cpp:41-101 | every event changes index, counter and timers as the reference machine says; a finish is reported exactly when the check timer fires with no frame loading |
| UrlLoader.EventLoadsNext | Tools/QtTestBrowser/urlloader.cpp:52-85 | what has been loaded grows by the next valid entry when a timer that leads to `loadNext` fires, and does not change otherwise |
| UrlLoader.UrlLoader.Run | Tools/QtTestBrowser/urlloader.cpp:64-101 | over every interleaving of events the driver is in the state of the reference machine, the frame has been given the valid entries of a prefix of the list, in order and once each, the counter is their number, and no finish was reported while a frame was loading |
| UrlLoader.RunLoadsOneEachTime | Tools/QtTestBrowser/urlloader.cpp:64-101 | over every interleaving, as many entries have been loaded as the driver went on, until all valid ones have been |
| UrlLoader.PageTellsState | Tools/QtTestBrowser/urlloader.cpp:41-101 | counter and timers, told from the events since the page was asked for |
| UrlLoader.PageEndsIff | Tools/QtTestBrowser/urlloader.cpp:41-101 | a page ends exactly by its time-out once the main frame has started to load, or by the check timer with all loads finished, or by the extra time after that; then the next valid entry is asked for with all timers stopped |
| UrlLoader.ValidEntriesGrow | Tools/QtTestBrowser/urlloader.cpp:64-80 | what has been loaded is always a prefix of what will have been loaded |
| UrlLoader.AllValidEntries | Tools/QtTestBrowser/urlloader.cpp:71-77 | an entry is loaded if and only if it is valid and within the prefix |

## Left out

- The text format of the keyword table (`parseKeywords`, `allWhitespace`, `Source/JavaScriptCore/KeywordLookupGenerator.py:65-82`); the model starts from the list of pairs, and takes keywords to be non-empty and of ASCII identifier characters, as `GoodTable` says.
- The big-endian packing macros (lines 230-239 of the generator; the 64-bit one calls itself with too few arguments) and the alignment of wide loads.
- Character literals of 0x80 and above in the emitted code, which a signed `char` would make negative.
- The table of keyword weights is a parameter, and weights are real numbers, not floating-point ones: only their order matters, and every order is covered.
- Python reuses `self.keys` first for a dictionary and then for a sorted list; the model has a field for each. The order in which a dictionary is traversed is left open.
- The fixed header text, indentation and macro definitions of the generated file are not lines of the model.
- `parseIdentifierSlowCase`, column numbers, 8-bit and 16-bit identifier buffers, and how the hash table of keywords is generated; that it holds the same entries as the table is a requirement of the lexer model.
- `genrand_int31`, `genrand_real1` to `genrand_real3` and `genrand_res53`: conversions, partly to floating point.
- MersenneTwisterGenerator.Generator.InitByArray: keys are of length 1 to 2^31 - 1, since the source reads `init_key[0]` in any case and its counters are of type `int`.
- The 32-bit variant of `unsigned long` needs no class of its own: the specification is in 32-bit words, and the 64-bit class is proved to hold exactly those.
- PixelDumpSupport.cpp: MD5 hashing, bitmaps and pixel comparison; the `Content-Type` line; images shorter than 33 bytes, which the source would read past the end of.
- Png.Output.Fwrite: a write that comes up short is modelled by the room left in the output, so a short write that is followed by a successful one does not occur.
- Png.Chunk: the order of chunks other than IHDR and IEND is not constrained.
- Downloading, the mirror, `setup.ini` parsing, sleeping and starting `setup.exe`; a record's `requires` list is taken as parsed.
- Opening gcov files, padding of the first column, gcov fields that are no numbers, negative numbers, lines without a colon (the source raises an exception for these), and the printed warnings.
- What a work item does beyond queueing, freezing and starting a load; items are assumed not to call `clear`, `dequeue` or `processWork` while they are invoked. A failed assertion ends the run (a build without assertions would write past the array).
- ScanString.ScanString: what `sscanf` reads is a function of the four units after `\u`. The model excludes input with white space there, which `sscanf` would skip before it counts, reading past the four units; fewer or prefixed digits are whatever that function says. `char` values above 0x7f, which are signed, do not occur.
- Reading the URL list, the output stream, `QUrl` (validity is a parameter), and disconnecting at the end of the list.
- UrlLoader.PageEndsIff, UrlLoader.UrlLoader.React: a finish event left over from a page that timed out does not occur, as the assertion in `frameLoadFinished` presumes.
- `Tools/WebKitTestRunner/CyclicRedundancyCheck.cpp` is identical to the CRC file modelled, and `PixelDumpSupport.cpp` there repeats the PNG code; they are modelled once.
- Launchers, command tokenizers and user-interface glue: thin layers over libraries that are not part of this model.
