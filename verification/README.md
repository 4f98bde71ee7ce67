# Verified models of six algorithms in QtWebKit

This project models six self-contained algorithms of the repository and proves what they are for.
`dafny verify dfyconfig.toml` covers all of it.

- **Keyword lookup** (`Keyword*.dfy`). `KeywordLookupGenerator.py` compiles the JavaScript keyword table into a C decision
  tree of word-sized comparisons that the lexer executes without bounds checks. The passes (insert, path compression,
  weighting) are functions on trie values, the emitted C is a small syntax tree with an interpreter, and the script's own
  mutable objects are a heap class proved against the functions. The tree is shown to be dictionary lookup of the leading
  identifier, packed comparisons included. The macros stop at eight units, so not every table compiles; the exact
  condition is proved, with a table that fails.
- **CRC-32** (`Crc*.dfy`). The table-driven loop is the polynomial remainder of section 3.4 of RFC 2083. Which errors it
  misses is characterised exactly, with one of them.
- **PNG comment** (`Png.dfy`, `PixelDump.dfy`). A checksum is printed into an image as a tEXt chunk behind IHDR (sections 3.2
  and 4.2.7 of RFC 2083).
- **Self-replacing worker threads** (`Threading*.dfy`). A transition system over one lock, with one step for each lock
  acquisition, each access made under the lock, and each unlocked action. Safety and termination hold for all
  interleavings. That every worker has finished when stop releases the context group is false of the code: there is a
  concrete interleaving, and the exact condition at the moment of the copy; likewise for creating a context too late.
- **Module paths** (`PathStrings.dfy`, `ModulePath.dfy`). Resolution of module names against referrers in the jsc shell, down to
  splitting and joining strings.
- **Regular-expression test lines, touch mocking, work queue** (`RegExp*.dfy`, `TouchMocking.dfy`, `WorkQueue.dfy`). A parser
  inverted by a printer, with the exact grammar it accepts, and two small state machines over whole runs.

Code that updates things step by step is modelled by methods with loops and by classes with the same fields, each proved
against a function of its inputs or of its old state; what the code is for is then proved about those functions.

Modelling choices:

- Text in the keyword modules is a sequence of code units. A Python dictionary is the sequence of its values in insertion
  order. Weights are reals.
- Which units are identifier parts, and how an escape continues an identifier (Lexer.cpp:748-791), are parameters.
- 32-bit words are naturals below 2^32; `^` is defined on their bits, shifts and masks by division and remainder.
- `fwrite` may take fewer bytes than offered; each incomplete write is a parameter of the model.
- Thread identifiers are fresh numbers. Joining a thread that has detached itself may return at any time.
- What a work item does when invoked is a parameter: the items it queues, and whether it starts a load.
- A C string is a text followed by NULs. sscanf's fields follow section 7.21.6.2 of C11.

Tools/WebKitTestRunner holds copies of the CRC and PNG code; one model stands for both.

## Model

| member | source | states |
|---|---|---|
| KeywordTrie.InsertFinds | Source/JavaScriptCore/KeywordLookupGenerator.py:103-109 | inserting a keyword changes the string-to-token map at that keyword and nowhere else |
| KeywordTrie.InsertKeepsShape | Source/JavaScriptCore/KeywordLookupGenerator.py:103-109 | insertion keeps one-unit edges, siblings with different first units, and no dead ends |
| KeywordTrie.InsertAllLaw | Source/JavaScriptCore/KeywordLookupGenerator.py:214-217 | the trie of a whole table is the table's dictionary, a later line for the same keyword winning |
| KeywordCoalesce.RekeyLosesNothing | Source/JavaScriptCore/KeywordLookupGenerator.py:112-116 | keying the new dictionary by merged prefixes overwrites no child: as many entries come out as went in, in order |
| KeywordCoalesce.CoalesceShape | Source/JavaScriptCore/KeywordLookupGenerator.py:111-126 | path compression yields the canonical form: below the root every node has a token or at least two children, and siblings still differ in their first unit |
| KeywordCoalesce.CoalesceFinds | Source/JavaScriptCore/KeywordLookupGenerator.py:111-116 | the node rewritten in place denotes the same map as before |
| KeywordCoalesce.CoalesceFindsEdge | Source/JavaScriptCore/KeywordLookupGenerator.py:117-126 | the node returned, with the merged edge in front, denotes the same map as the old node with its own edge |
| KeywordFillOut.SortLaw | Source/JavaScriptCore/KeywordLookupGenerator.py:137 | the reordering is a permutation in decreasing weight that keeps children of equal weight in their old order |
| KeywordFillOut.FillOutFinds | Source/JavaScriptCore/KeywordLookupGenerator.py:128-138 | filling out and reordering leave the string-to-token map unchanged |
| KeywordFillOut.FillOutShape | Source/JavaScriptCore/KeywordLookupGenerator.py:128-138 | every node carries the text from the root to its end, its own text's weight, or nothing if it has none, plus the sum of its children's weights, siblings come in decreasing weight, and the compressed form is kept |
| KeywordCode.EmitInBounds | Source/JavaScriptCore/KeywordLookupGenerator.py:140-190 | every unit the emitted code can read, on any path, has an index below maxLength plus one, so no bounds check is needed |
| KeywordCode.EdgeLaw | Source/JavaScriptCore/KeywordLookupGenerator.py:152-164 | an edge is compared in its own place, and one of three units below the root together with the unit before it |
| KeywordCode.EdgeHolds | Source/JavaScriptCore/KeywordLookupGenerator.py:152-164 | a branch is taken exactly when the input continues with that child's edge, also when a three-unit edge borrows the unit before it |
| KeywordCode.KidFinds | Source/JavaScriptCore/KeywordLookupGenerator.py:152-171 | once a branch is taken, every longer keyword the input could still match lies below that child |
| KeywordCode.ExecScans | Source/JavaScriptCore/KeywordLookupGenerator.py:140-174 | the nested if/else-if tree, which never backtracks, computes the shortest accepted prefix below a node |
| KeywordPacked.Compare2Law | Source/JavaScriptCore/KeywordLookupGenerator.py:222-263 | a two-unit word comparison on any target and for either width is comparison of both units |
| KeywordPacked.Compare4Law | Source/JavaScriptCore/KeywordLookupGenerator.py:222-279 | a four-unit comparison, one word or two, is comparison of all four units |
| KeywordPacked.PackedLaw | Source/JavaScriptCore/KeywordLookupGenerator.py:283-302 | each of the macros for one to eight units, the overlapping seven-unit one included, decides what unit-by-unit comparison decides |
| KeywordCompiler.GenerateShape | Source/JavaScriptCore/KeywordLookupGenerator.py:214-219 | after all passes the trie is branching, compressed, labelled and weighed, and its root is still the empty prefix |
| KeywordCompiler.GenerateFinds | Source/JavaScriptCore/KeywordLookupGenerator.py:214-219 | after all passes the trie denotes exactly the keyword table |
| KeywordCompiler.MaxLengthIsLongest | Source/JavaScriptCore/KeywordLookupGenerator.py:176-190 | maxTokenLength is one more than the length of the longest keyword in the table |
| KeywordCompiler.EmittedCodeCorrect | Source/JavaScriptCore/KeywordLookupGenerator.py:140-219 | for any table, any weights and any input longer than the longest keyword, the emitted code stays in bounds and returns what a scan of the table alone returns |
| KeywordCompiler.PackedRunSame | Source/JavaScriptCore/KeywordLookupGenerator.py:152-164 | the tree with packed comparisons returns what the tree with unit-by-unit comparisons returns, for 8-bit and 16-bit units on every target |
| KeywordEdges.EmitsKeywords | Source/JavaScriptCore/KeywordLookupGenerator.py:152-164 | every comparison in the emitted code compares a stretch of some keyword at that stretch's own place |
| KeywordEdges.EmitsAscii | Source/JavaScriptCore/KeywordLookupGenerator.py:157 | when all keywords are ASCII so is every character literal in the emitted code |
| KeywordEdges.NodeIsStop | Source/JavaScriptCore/KeywordLookupGenerator.py:111-126 | every node below the root ends a keyword or is a point where two keywords part |
| KeywordEdges.NoStopInside | Source/JavaScriptCore/KeywordLookupGenerator.py:111-126 | no keyword ends, and no two part, in the middle of an edge |
| KeywordEdges.CompilesExactlyWhen | Source/JavaScriptCore/KeywordLookupGenerator.py:157-164 | every comparison has a macro if and only if no keyword has nine consecutive units without a keyword ending or parting inside them |
| KeywordEdges.LoneLongKeyword | Source/JavaScriptCore/KeywordLookupGenerator.py:157-164 | some tables do not compile: any table of one keyword with more than eight units |
| KeywordEdges.ArgumentsAlone | Source/JavaScriptCore/KeywordLookupGenerator.py:157-164 | the table of the one keyword "arguments" is such a table |
| KeywordLexing.ParseKeywordCorrect | Source/JavaScriptCore/KeywordLookupGenerator.py:184-212 | the emitted parseKeyword, with packed comparisons, is the reference scan of the table for every table it compiles for |
| KeywordLexing.FirstIsShortest | Source/JavaScriptCore/KeywordLookupGenerator.py:143-148 | the result is the shortest keyword that starts the input and is not followed by an identifier part, with its own length and last token; none exactly when there is no such keyword |
| KeywordLexing.KeywordReturnedIffMatches | Source/JavaScriptCore/KeywordLookupGenerator.py:143-174 | when keywords consist of identifier parts at most one keyword matches, it is returned if and only if it matches, and otherwise the result is IDENT |
| KeywordLexing.LooksUpLeadingIdentifier | Source/JavaScriptCore/parser/Lexer.cpp:902-912 | lexing a keyword is dictionary lookup of the leading identifier, unless an escape continues it |
| KeywordGenerator.Trie.constructor | Source/JavaScriptCore/KeywordLookupGenerator.py:98-101 | a new object stands for an empty node with its prefix |
| KeywordGenerator.Trie.Insert | Source/JavaScriptCore/KeywordLookupGenerator.py:103-109 | the objects, updated in place, stand for the value-level insertion, and only owned or new objects change |
| KeywordGenerator.Trie.Coalesce | Source/JavaScriptCore/KeywordLookupGenerator.py:111-126 | the object is left standing for the node compressed in place, and the object returned stands for the merged node |
| KeywordGenerator.Trie.FillOut | Source/JavaScriptCore/KeywordLookupGenerator.py:128-138 | the objects, updated in place, stand for the filled-out and reordered trie |
| KeywordGenerator.Trie.Sorted | Source/JavaScriptCore/KeywordLookupGenerator.py:137 | the sorted list of objects stands for the stable sort of their values |
| KeywordGenerator.Trie.MaxLength | Source/JavaScriptCore/KeywordLookupGenerator.py:176-182 | the accumulator loop computes the depth of the subtree in units |
| KeywordGenerator.Trie.PrintSubTree | Source/JavaScriptCore/KeywordLookupGenerator.py:140-174 | the printing loop produces the decision tree of the subtree |
| KeywordGenerator.Generate | Source/JavaScriptCore/KeywordLookupGenerator.py:214-219 | the script on mutable objects, its discarded root result included, produces the verified decision tree and a maxTokenLength one above the longest keyword |
| CrcBits.RemainderDivides | Tools/DumpRenderTree/CyclicRedundancyCheck.cpp:36-63 | long division by the CRC-32 generator has a quotient: the dividend is quotient times generator plus remainder |
| CrcBits.RemainderUnique | Tools/DumpRenderTree/CyclicRedundancyCheck.cpp:36-63 | no other remainder of degree below 32 is possible, whatever the quotient |
| CrcBits.FeedIsRemainder | Tools/DumpRenderTree/CyclicRedundancyCheck.cpp:59-62 | the shift register holds the remainder of start times x^n plus message times x^32 |
| CrcBits.FeedInjective | Tools/DumpRenderTree/CyclicRedundancyCheck.cpp:40-45 | for a fixed message the register's final state determines its initial state |
| CrcBits.FeedDetectsBurst | Tools/DumpRenderTree/CyclicRedundancyCheck.cpp:59-62 | messages that differ only in one stretch of at most 32 bits leave different registers |
| Crc.StepIsShift | Tools/DumpRenderTree/CyclicRedundancyCheck.cpp:41-44 | one pass of the inner loop is one shift of the polynomial register by a zero bit |
| Crc.TableStep | Tools/DumpRenderTree/CyclicRedundancyCheck.cpp:59-62 | eight single-bit steps of any word are one table entry and one shift by eight, by linearity |
| Crc.LookupFeedsByte | Tools/DumpRenderTree/CyclicRedundancyCheck.cpp:61 | the loop body with a computed table feeds the eight bits of one byte |
| Crc.CrcIsRemainder | Tools/DumpRenderTree/CyclicRedundancyCheck.cpp:50-63 | for every buffer the result is the complement of the bit-reflected remainder of all-ones times x^(8n) plus message times x^32, as section 3.4 of RFC 2083 defines it |
| Crc.BurstDetected | Tools/DumpRenderTree/CyclicRedundancyCheck.cpp:50-63 | different buffers of one length whose bits differ only inside any window of 32 bits have different CRCs |
| CrcErrors.FourBytesDetected | Tools/DumpRenderTree/CyclicRedundancyCheck.cpp:50-63 | different buffers of one length that differ only inside four consecutive bytes have different CRCs |
| CrcErrors.UndetectedIffMultiple | Tools/DumpRenderTree/CyclicRedundancyCheck.cpp:50-63 | two buffers of one length have the same CRC if and only if they are equal or their difference is a multiple of the generator |
| CrcErrors.GeneratorIsMultiple | Tools/DumpRenderTree/CyclicRedundancyCheck.cpp:41-44 | the generator followed by any number of zeros is such a difference |
| CrcErrors.BurstMissed | Tools/DumpRenderTree/CyclicRedundancyCheck.cpp:50-63 | so the window of 32 bits is tight: the five bytes 41 06 71 DB 01 and five zero bytes, 33 bits apart, have the same CRC |
| CrcConstant.ResidueBits | Tools/DumpRenderTree/CyclicRedundancyCheck.cpp:50-63 | 0x2144DF1C is the complement of the register that all-ones becomes after 32 zero bits |
| CrcResidue.ResidueIsConstant | Tools/DumpRenderTree/CyclicRedundancyCheck.cpp:50-63 | the CRC of any buffer followed by its own CRC, least significant byte first, is 0x2144DF1C |
| CrcResidue.ResidueChecksCrc | Tools/DumpRenderTree/CyclicRedundancyCheck.cpp:50-63 | four bytes behind a buffer give that residue if and only if they are its CRC |
| Crc.CrcComputer.constructor | Tools/DumpRenderTree/CyclicRedundancyCheck.cpp:52-53 | the 256-entry table is new and starts out not computed |
| Crc.CrcComputer.MakeCrcTable | Tools/DumpRenderTree/CyclicRedundancyCheck.cpp:36-48 | the nested loops fill each of the 256 entries with eight steps of its index |
| Crc.CrcComputer.ComputeCrc | Tools/WebKitTestRunner/CyclicRedundancyCheck.cpp:50-63 | on the first call and on every later one, the table-driven loop returns the bit-by-bit CRC |
| Crc.CrcComputer.Update | Tools/DumpRenderTree/CyclicRedundancyCheck.cpp:59-61 | the buffer loop equals eight shift-and-conditional-XOR steps per byte |
| Png.BigEndianRoundTrip | Tools/DumpRenderTree/PixelDumpSupport.cpp:77-85 | a four-byte big-endian field reads back as its number |
| Png.FromBigEndianRoundTrip | Tools/DumpRenderTree/PixelDumpSupport.cpp:77-85 | and a number read from such a field is written as the same four bytes |
| Png.SplitSerialized | Tools/DumpRenderTree/PixelDumpSupport.cpp:89 | a chunk laid out as length, type, data and CRC is read back, and reading continues behind it |
| Png.InsertBehindFirst | Tools/DumpRenderTree/PixelDumpSupport.cpp:105-110 | inserting a serialised chunk behind the first chunk's bytes inserts the chunk behind the first in the list |
| PixelDump.SplicedParses | Tools/DumpRenderTree/PixelDumpSupport.cpp:112-136 | for every datastream that starts with a 13-byte IHDR, the printed stream parses, every CRC checked, to the original chunks with exactly the tEXt comment added behind IHDR |
| PixelDump.CommentReads | Tools/DumpRenderTree/PixelDumpSupport.cpp:87-103 | the comment is a text chunk: read as section 4.2.7 of RFC 2083 says, its keyword is "checksum" and its text the 32 checksum bytes, and its CRC is correct |
| PixelDump.BlocksLaw | Tools/DumpRenderTree/PixelDumpSupport.cpp:125-129 | the blocks put together are the rest of the image, none is empty or longer than 32768 bytes, and only the last may be shorter |
| PixelDump.AppendIntToVector | Tools/DumpRenderTree/PixelDumpSupport.cpp:77-85 | the vector grows by the number's big-endian bytes |
| PixelDump.ConvertChecksumToPngComment | Tools/WebKitTestRunner/PixelDumpSupport.cpp:45-61 | the vector grows by a well-formed tEXt chunk for the checksum, its length field and CRC correct |
| PixelDump.PrintPng | Tools/DumpRenderTree/PixelDumpSupport.cpp:112-136 | the announced Content-Length is the size of the spliced image; header part, comment and the blocks of the rest are offered in this order whatever is taken of the first two, the blocks up to the first not taken whole; what is printed is what was taken of them, the spliced image if every write is complete |
| PixelDump.WriteRest | Tools/DumpRenderTree/PixelDumpSupport.cpp:125-135 | the loop offers the blocks of the rest in order, all of them or up to the first not taken whole |
| Threading.StepKeepsInv | Tools/DumpRenderTree/JavaScriptThreading.cpp:64-157 | every step of every thread keeps the lock discipline, the exact contents of the thread set and its size |
| ThreadingRuns.RunKeepsInv | Tools/DumpRenderTree/JavaScriptThreading.cpp:64-157 | so does every interleaving |
| ThreadingRuns.SetHoldsFour | Tools/DumpRenderTree/JavaScriptThreading.cpp:110-146 | from the end of start until stop clears the set, in every interleaving, the set has exactly four threads whenever the lock is free and when stop copies it, and a worker that has locked once and not replaced itself is in it |
| ThreadingRuns.FourMoreWorkers | Tools/DumpRenderTree/JavaScriptThreading.cpp:100-139 | once the flag is raised at most four more workers are created, however long the run |
| ThreadingRuns.WorkerStepLowers | Tools/DumpRenderTree/JavaScriptThreading.cpp:84-122 | with the flag up every worker step, creation included, lowers a weight that controller steps never raise |
| ThreadingRuns.WorkersEnd | Tools/DumpRenderTree/JavaScriptThreading.cpp:84-139 | so the number of remaining worker steps in any run is bounded by that weight |
| ThreadingRuns.RunsEnd | Tools/DumpRenderTree/JavaScriptThreading.cpp:134-157 | with the flag up every run of workers and controller together is finite, under any scheduler |
| ThreadingRuns.NoDeadlock | Tools/DumpRenderTree/JavaScriptThreading.cpp:64-157 | some step is possible in every reachable state until the group is released and every worker has finished |
| ThreadingRuns.StopCompletes | Tools/DumpRenderTree/JavaScriptThreading.cpp:134-157 | a run that cannot be continued has released the context group and finished every worker |
| ThreadingStop.ReleaseFindsAllFinishedIff | Tools/DumpRenderTree/JavaScriptThreading.cpp:141-156 | after stop's copy, every way to reach the release finds all workers finished if and only if, at the copy, every worker outside it had finished and none inside it was past the flag check |
| ThreadingStop.NoLateContextIff | Tools/DumpRenderTree/JavaScriptThreading.cpp:74-156 | after stop's copy, no run reaches the release with a worker still to create its context in the group if and only if no worker was past the flag check at the copy |
| ThreadingStop.ReleaseUnderLiveWorker | Tools/DumpRenderTree/JavaScriptThreading.cpp:74-156 | the other case of both occurs: from the start there is a run in which the group is released while a replacement worker is live and has still to create its context in it |
| ThreadingOrder.WorkersFollowProgram | Tools/DumpRenderTree/JavaScriptThreading.cpp:72-122 | in every interleaving each worker completes its critical sections in the order of the program, from creating its context on, and a finished one ended with its cleanup |
| ThreadingOrder.LeavesOnlyOnFlagOrReplaced | Tools/DumpRenderTree/JavaScriptThreading.cpp:100-116 | a worker leaves its loop only if it has replaced itself or the flag is up |
| ThreadingOrder.StopJoinsFour | Tools/DumpRenderTree/JavaScriptThreading.cpp:141-149 | stop copies four threads and goes on only when each of them has finished or replaced itself |
| ThreadingOrder.SetStaysEmpty | Tools/DumpRenderTree/JavaScriptThreading.cpp:151-154 | once stop has cleared the set it is empty and stays so in every interleaving, although a replacement may still be live |
| PathStrings.Find | Source/JavaScriptCore/jsc.cpp:835 | the first separator from a position on, or none exactly when there is none |
| PathStrings.ReverseFind | Source/JavaScriptCore/jsc.cpp:839 | the last separator, or none exactly when there is none |
| PathStrings.PiecesConcat | Source/WTF/wtf/text/WTFString.cpp:737-750 | splitting a text at a written-out separator is splitting both sides |
| PathStrings.PiecesArePlain | Source/WTF/wtf/text/WTFString.cpp:737-750 | no piece contains a separator |
| PathStrings.Split | Source/WTF/wtf/text/WTFString.cpp:737-750 | the scanning loop returns all pieces, or all non-empty ones |
| PathStrings.SplitJoin | Source/JavaScriptCore/jsc.cpp:891-915 | joining names with separators and splitting again, without empty entries, is the identity |
| ModulePath.ResolvePath | Source/JavaScriptCore/jsc.cpp:891-916 | split, the push and pop loop and the builder return the root name followed by the joined walk |
| ModulePath.Build | Source/JavaScriptCore/jsc.cpp:908-915 | the builder loop appends the pieces with separators between them |
| ModulePath.WalkIsCancel | Source/JavaScriptCore/jsc.cpp:900-906 | the stack walk is cancellation of each name by the nearest later "..", with surplus ".." ignored at the root |
| ModulePath.DirectoryOfFile | Source/JavaScriptCore/jsc.cpp:833-849 | the directory extracted from a file's path is what precedes its name |
| ModulePath.ResolveComposes | Source/JavaScriptCore/jsc.cpp:827-916 | for an ordinary file name f and a relative b, resolving b against the directory of the module resolved from a/f is resolving a/b, at the string level |
| ModulePath.KeyIsNormalised | Source/JavaScriptCore/jsc.cpp:891-916 | against a normalised directory any module name at all resolves to an absolute path without empty, "." or ".." segments |
| ModulePath.KeyDirectory | Source/JavaScriptCore/jsc.cpp:833-849 | the directory of such a key is normalised again |
| ModulePath.ResolveKeyAgain | Source/JavaScriptCore/jsc.cpp:896-916 | resolving such a key returns it unchanged, whatever the referrer |
| ModulePath.WorkingDirectoryNormalised | Source/JavaScriptCore/jsc.cpp:882-888 | a normalised working directory is taken apart into its root and its segments |
| ModulePath.ResolveIsTarget | Source/JavaScriptCore/jsc.cpp:891-916 | a name leads where its ".." cancel the names to their left, the directory's included unless the name starts at the root or is empty |
| ModulePath.LoaderFails | Source/JavaScriptCore/jsc.cpp:931-949 | resolution fails for the working directory exactly without a referrer and with no working directory, and for the referrer exactly if it has no separator; with a referrer the working directory does not matter |
| ModulePath.BesideReferrer | Source/JavaScriptCore/jsc.cpp:945-952 | a module is looked up beside its referrer, for every absolute referrer and every name |
| ModulePath.InWorkingDirectory | Source/JavaScriptCore/jsc.cpp:931-934 | without a referrer it is looked up in the working directory |
| ModulePath.ImportsCompose | Source/JavaScriptCore/jsc.cpp:918-953 | a module imported as a/f that imports b gets what importing a/b would have given, wherever the process is by then |
| ModulePath.ChainStaysNormalised | Source/JavaScriptCore/jsc.cpp:931-952 | over any chain of imports from a normalised working directory, each key the next referrer, every resolution succeeds with a normalised key |
| RegExpText.ReadPrinted | Source/JavaScriptCore/testRegExp.cpp:368-381 | a printed integer, negative ones included, reads back as itself and reading stops behind it |
| RegExpText.ReadIntIff | Source/JavaScriptCore/testRegExp.cpp:370-381 | an integer is read, and reading stops, exactly as the text is blanks, an optional sign and digits by position |
| RegExpText.ReadPairIff | Source/JavaScriptCore/testRegExp.cpp:400 | a pair is read exactly if two such integers have a comma behind the first |
| RegExpScan.ScanString | Source/JavaScriptCore/testRegExp.cpp:271-335 | the flag-driven loop returns the position of the unescaped terminator, or -1, and the decoded units |
| RegExpScan.ScanRest | Source/JavaScriptCore/testRegExp.cpp:324-325 | what is left starts at the terminator and is the end of the text |
| RegExpScan.HexRoundTrip | Source/JavaScriptCore/testRegExp.cpp:310-318 | four hexadecimal digits, read as sscanf reads a field that may also hold blanks, a sign and a prefix, give back their code unit |
| RegExpScan.ScanPrinted | Source/JavaScriptCore/testRegExp.cpp:271-335 | scanning the escaped form of any code units, then a quote, decodes exactly those units and stops at the quote |
| RegExpLine.ParsePairList | Source/JavaScriptCore/testRegExp.cpp:399-421 | the pair loop returns the list of pairs, or fails, as the recursive reading does |
| RegExpLine.ParsePrintedPairs | Source/JavaScriptCore/testRegExp.cpp:399-421 | a printed list of pairs reads back as itself |
| RegExpLine.ParseTestLine | Source/JavaScriptCore/testRegExp.cpp:354-424 | the index-driven parser returns what the reading by suffixes returns, on every line |
| RegExpLine.PrintParse | Source/JavaScriptCore/testRegExp.cpp:354-424 | printing any subject, offset, result and list of pairs and parsing the line gives the same test back |
| RegExpLine.AcceptedHasPrintedForm | Source/JavaScriptCore/testRegExp.cpp:354-424 | every accepted line has an even number of expected offsets and means the same as the line printed for it |
| RegExpGrammar.HexValueIs | Source/JavaScriptCore/testRegExp.cpp:314 | a character is a hexadecimal digit, in either case, exactly with its value |
| RegExpGrammar.FourHexDigits | Source/JavaScriptCore/testRegExp.cpp:310-318 | four hexadecimal digits in either case are their value by position, whatever follows |
| RegExpGrammar.HexFieldReads | Source/JavaScriptCore/testRegExp.cpp:314-316 | a field of blanks, sign, prefix and digits in four characters is their value cut to a code unit |
| RegExpGrammar.HexFieldSplits | Source/JavaScriptCore/testRegExp.cpp:314-316 | and nothing else is read as a field |
| RegExpGrammar.UnescapeIs | Source/JavaScriptCore/testRegExp.cpp:279-309 | an escaped character is looked up in the table of escapes and otherwise stands for itself, widened as a signed char |
| RegExpGrammar.ScanIff | Source/JavaScriptCore/testRegExp.cpp:271-335 | scanning finds these units before a terminator at this position exactly if the text before it is cut into characters, escapes and hexadecimal escapes for them |
| RegExpGrammar.PairThenIff | Source/JavaScriptCore/testRegExp.cpp:400-413 | a pair is read and skipped exactly over two integers with a comma between them and whatever comes before the next comma or parenthesis |
| RegExpGrammar.PairsIff | Source/JavaScriptCore/testRegExp.cpp:399-421 | a list is accepted exactly if it is pairs separated by commas up to a parenthesis or the end of the line |
| RegExpGrammar.AcceptedIff | Source/JavaScriptCore/testRegExp.cpp:354-424 | a line with a terminated subject is accepted, and as this test, exactly if it is a quoted subject, an integer, an integer and a list with the right separators |
| RegExpGrammar.UnterminatedIff | Source/JavaScriptCore/testRegExp.cpp:361-364 | a line with an unterminated subject is accepted exactly if it goes on behind the opening quote as it would behind a closing one |
| TouchMocking.LauncherWindow.SendTouchEvent | Tools/QtTestBrowser/launcherwindow.cpp:595-617 | one event of the right kind with all points is sent, and released points are gone afterwards |
| TouchMocking.LauncherWindow.EventFilter | Tools/QtTestBrowser/launcherwindow.cpp:633-696 | each window event changes points and events sent as the tracker function says |
| TouchMocking.LauncherWindow.SetTouchMocking | Tools/QtTestBrowser/launcherwindow.cpp:890-893 | only whether events are mocked changes |
| TouchMocking.MouseLaw | Tools/QtTestBrowser/launcherwindow.cpp:636-667 | with mocking on each press, release and drag sends exactly one event, with the mouse's point in its new state and the others unchanged, a released point still included; released points are gone afterwards |
| TouchMocking.KeyLaw | Tools/QtTestBrowser/launcherwindow.cpp:668-693 | Ctrl+F sends exactly one event with the keyboard's point, pressed if it was not there, which leaves it stationary, and released if it was |
| TouchMocking.OthersIgnored | Tools/QtTestBrowser/launcherwindow.cpp:633-644 | no other event, and without mocking no event, sends or changes anything |
| TouchMocking.SwitchLaw | Tools/QtTestBrowser/launcherwindow.cpp:890-893 | switching mocking leaves points and events alone |
| TouchMocking.DropIsUnreleased | Tools/QtTestBrowser/launcherwindow.cpp:612-616 | of up to two points exactly the released ones are removed, unless both are released |
| TouchMocking.RunTidy | Tools/QtTestBrowser/launcherwindow.cpp:636-693 | over any event sequence there are at most two points, with different ids; between events none is released and the keyboard's is stationary |
| TouchMocking.ProperIffWellNested | Tools/QtTestBrowser/launcherwindow.cpp:595-693 | an event sends TouchBegin exactly on the first point and TouchEnd exactly on the last unless it is ill nested, and an ill-nested event always breaks this |
| TouchMocking.AllProperIffNeverIllNested | Tools/QtTestBrowser/launcherwindow.cpp:595-693 | every event of a run sends TouchBegin exactly on the first point and TouchEnd exactly on the last if and only if no event of the run is ill nested |
| TouchMocking.DragBreaksProtocol | Tools/QtTestBrowser/launcherwindow.cpp:636-667 | ill-nested events break it: a drag with nothing down, right after mocking is switched on, sends TouchUpdate for a first point |
| TouchMocking.NestingSuffices | Tools/QtTestBrowser/launcherwindow.cpp:636-693 | well-nested mouse events with mocking on are never ill nested, whatever the keyboard does |
| TouchMocking.RunInStep | Tools/QtTestBrowser/launcherwindow.cpp:595-693 | over any run without ill-nested events TouchBegin and TouchEnd alternate, and a begin is open exactly while there is a point |
| TouchMocking.TouchProtocol | Tools/QtTestBrowser/launcherwindow.cpp:595-693 | from switching mocking on, for every well-nested event sequence: each event sends TouchBegin exactly on the first point and TouchEnd exactly on the last, they alternate, and a begin is open exactly while there is a point |
| WorkQueue.ApplyKeepsInv | Tools/DumpRenderTree/WorkQueue.cpp:57-108 | every operation keeps first-in-first-out order and accounts for every submitted item |
| WorkQueue.FifoAndOneFate | Tools/DumpRenderTree/WorkQueue.cpp:40-109 | in every run the invoked items are the first accepted since the last clear, and an item submitted once is in exactly one place: pending, in progress or deleted, the last at most once; invocations may nest |
| WorkQueue.ClearLaw | Tools/DumpRenderTree/WorkQueue.cpp:85-94 | after a clear nothing is pending, the items that were have been deleted in order and numbering starts over; items being invoked and the frozen flag are left alone |
| WorkQueue.FreezeLaw | Tools/DumpRenderTree/WorkQueue.cpp:57-68 | freezing touches nothing that is there; a frozen queue deletes the next item, another stores it |
| WorkQueue.SubmitAllLaw | Tools/DumpRenderTree/WorkQueue.cpp:57-68 | items submitted in a row are stored at the end in that order, or none of them when the queue is frozen |
| WorkQueue.InvokeNextLaw | Tools/DumpRenderTree/WorkQueue.cpp:101-104 | one invocation runs the oldest pending item, advances the start by one, stores at the end exactly what the item queued and deletes the item last |
| WorkQueue.ProcessLaw | Tools/DumpRenderTree/WorkQueue.cpp:96-109 | what is accepted afterwards is what was accepted before followed by exactly what the invocations queued, in order; the invoked items continue that sequence within the 1024 slots; it stops at the first invocation that starts a load and reports exactly that, and otherwise nothing is left pending |
| WorkQueue.ProcessAccounts | Tools/DumpRenderTree/WorkQueue.cpp:96-109 | what was queued counts as submitted, and unless the queue is frozen exactly the invoked items are deleted, in order |
| WorkQueue.WorkQueueSingleton.constructor | Tools/DumpRenderTree/WorkQueue.cpp:42-55 | the queue starts empty and not frozen |
| WorkQueue.WorkQueueSingleton.Enqueue | Tools/DumpRenderTree/WorkQueue.cpp:57-68 | the array and indices store the item at the end, or the item is deleted when frozen |
| WorkQueue.WorkQueueSingleton.Dequeue | Tools/DumpRenderTree/WorkQueue.cpp:70-78 | the oldest pending item, or nothing when none is pending |
| WorkQueue.WorkQueueSingleton.Count | Tools/DumpRenderTree/WorkQueue.cpp:80-83 | the number of pending items |
| WorkQueue.WorkQueueSingleton.Clear | Tools/DumpRenderTree/WorkQueue.cpp:85-94 | the slots of all pending items are emptied, both indices are zero, and the queue is as after a clear |
| WorkQueue.WorkQueueSingleton.SetFrozen | Tools/DumpRenderTree/WorkQueue.h:47 | only the frozen flag changes |
| WorkQueue.WorkQueueSingleton.ProcessWork | Tools/DumpRenderTree/WorkQueue.cpp:96-109 | the queue is left as processing leaves it, and the result is true exactly if the last invocation made did not start a load, in which case nothing is pending |

## Left out

- KeywordLexing.ParseKeywordCorrect: keywords are ASCII. A character literal above 0x7F is not one unit in C, so the emitted text means something else there.
- PixelDump.PrintPng: images have at least the 33 bytes of a signature and an IHDR chunk.
- RegExpLine.PrintParse: integers are unbounded, so overflow of `int` in sscanf is not modelled.
- RegExpLine.ParseTestLine: reads behind the terminating NUL yield NUL.
- WorkQueue.WorkQueueSingleton.ProcessWork: what an invocation does is given as the items it queues; clearing, freezing or processing from inside an invocation is covered for runs of single operations (WorkQueue.FifoAndOneFate) but not for this loop. The assertion that a slot is free is a precondition.
- Threading.StepKeepsInv: start and stop happen once; starting again after a stop, with the flag still raised, is not modelled.
- The concrete text of the emitted C, the parsing of the keyword file and output redirection: plain text handling.
- The big-endian 64-bit word macro, which refers to itself with two arguments: four-unit words are used only on x86-64.
- The lexer around parseKeyword: identifiers longer than the remaining input, reserved words in strict mode.
- Rejection of every unterminated subject in test lines is not a property of the code: the scanner's -1 becomes the position of the opening quote; RegExpGrammar.UnterminatedIff says exactly what is accepted. parseRegExpLine would only add an easier case of the same scan.
- MD5 hashing, bitmap capture and the printed header lines other than the announced length.
- Creation and execution of scripts inside the worker threads; what the thread library does with a thread that is joined after detaching itself.
- Windows paths, symbols as module keys, promises and file reading in the jsc shell.
- Positions and pressure of touch points, and leaving full-screen mode in the same event filter.
- The rest of the repository: engine, bindings, accessibility, test controllers and browser windows, which would only add easy members or depend on libraries outside it.
