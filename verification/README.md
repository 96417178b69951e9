# Proofs about the regular-expression engine, its Unicode tables and the test scheduler

This project models four parts of the repository in Dafny and proves what they are for.

**Regular expressions** (`libregexp/libregexp.c`). `Syntax` has the expressions after parsing, `Terms` the
same with classes that match strings. `Semantics` gives a node the list of its outcomes in the order in
which backtracking meets them, and `EcmaMatcher` writes down the continuation-passing matchers of section
22.2.2 of ECMA-262, RepeatMatcher included, and proves that a matcher answers with the first outcome its
continuation accepts. `Compiler` describes the emitted instructions, with the relative jumps, elided checks
and registers that the C code produces. `Emitter` is the parser's side as a class with a growing byte
buffer: insertion in front of emitted code, rotation of terms in a lookbehind, patched jumps, goto chains
linked through their operands, and the linear pass that allocates registers. `Machine` is a virtual machine
whose choice points hold full copies of the memory; `UndoLog` keeps one memory and a log; `Backtracker` is
the C function as a class with one cell array, `sp`, `bp` and in-place compaction. `Correctness` and
`Search` relate instructions to outcomes, `Utf16` relates a run over 16-bit units to a run over code points,
and `EndToEnd` puts everything together: `CompileAndExec` returns what RegExpBuiltinExec returns.
`AssertionMeaning` says what the built-in assertions and sets mean in terms of lookarounds and explicit
classes, `Limits` which expressions are just accepted and which are not any more.

**Character sets and Unicode** (`libregexp/libunicode.c`). `CharRange` has the set operations on sorted
points and `SetLaws` the laws that tie them together, `CaseFold` folding of characters and of whole sets over
an abstract table, `CaseRuns` what each type of run does, `ClassMeaning` what a folded class then matches,
`PropTable` the indexed run-length tables and `TableFormat` their bytes, `Normalize` canonical decomposition
and ordering.

**Sorting and codecs** (`libregexp/cutils.h`, `libregexp/re_wrapper.c`). `Rqsort` is the sort with its
explicit stack, `Utf8` the codecs between UTF-8 with surrogates and 16-bit units, `Wrapper` the CESU-8 bridge
and `re_run` with its two paths, `CaptureBuffer` the array that `re_run` keeps captures in, `CodecMeaning`
which bytes and units stand for which characters.

**The test scheduler** (`scripts/run_test262.py`). `Scheduler` has the worker pool as classes; what the
operating system does in each phase of the loop is a parameter, so every interleaving is covered, and every
verdict carries its cause. `WorkerLines` has the lines that workers print.

`dafny verify dfyconfig.toml` checks the project.

## Model

| member | source | states |
|---|---|---|
| EndToEnd.CompileAndExec | libregexp/libregexp.c:2532-2624 | Compiling a term and running the buffer on any text, start and character mode terminates with the verdict, end and captures of RegExpBuiltinExec over the section 22.2.2 matchers, whenever no counter can run out; the captures of a match start no later than they end and lie in the text in any case; compilation fails exactly when a stated limit is exceeded. |
| EndToEnd.LreExec | libregexp/libregexp.c:3338-3376 | On a buffer that the compiler wrote, in 8-bit, 16-bit and UTF-16 mode, the answer left in the capture array is the first match from the snapped start index; without any condition on counters it is that of the expression with the counters' bounds made explicit. |
| EndToEnd.FirstMatchIsBuiltinExec | libregexp/libregexp.c:2564-2586 | The first outcome of the search that the emitted loop around group 0 makes is what RegExpBuiltinExec finds by trying the matcher at one index after the other, or at one index only if sticky. |
| EndToEnd.RunInside | libregexp/libregexp.c:2784-3333 | Along every run every capture slot that is set, in the memory or in a choice point, holds a position in the text. |
| Spans.OutcomesOk | libregexp/libregexp.c:3041-3066 | From a state whose spans all start no later than they end, and end in the text, every outcome of every node in either direction is such a state. |
| Spans.FirstMatchOk | libregexp/libregexp.c:3338-3376 | So the first match of every expression has only such spans, although in the middle of a run a start may lie behind an end. |
| AssertionMeaning.WordBoundaryMeans | libregexp/libregexp.c:3150-3183 | `\b` has the outcomes of `(?<=W)(?!W)` or `(?<!W)(?=W)`, W being the explicit class of 0-9, A-Z, `_` and a-z, with U+017F and U+212A if case is ignored, in either direction. |
| AssertionMeaning.NotWordBoundaryMeans | libregexp/libregexp.c:3150-3183 | `\B` has those of a negative lookahead of `\b`. |
| AssertionMeaning.LineMeans | libregexp/libregexp.c:2995-3014 | `^` has the outcomes of `(?<!.)` and `$` those of `(?!.)`, where the dot leaves out line terminators if multiline and nothing otherwise. |
| AssertionMeaning.DotMeans | libregexp/libregexp.c:2626-2629 | The dot has the outcomes of the explicit class of everything but LF, CR, U+2028 and U+2029, or of everything. |
| Correctness.NodeCorrect | libregexp/libregexp.c:2206-2374 | The code of every node, entered in either direction at any nesting of loops, hands its continuation exactly the outcomes of the reference semantics in order, leaves memory outside its own slots alone and then fails; this covers all quantifier layouts and both elisions. |
| Search.ProgramCorrect | libregexp/libregexp.c:2564-2586 | A whole program ends in the first match with its captures, or in failure; so it always ends. |
| Leaves.ClassTest | libregexp/libregexp.c:1235-1269 | The emitted class instruction accepts a character iff it is in the CharRange, in the 16-bit form, where 0xffff in the last range is infinity, and in the 32-bit form. |
| Counters.AnyProgramCorrect | libregexp/libregexp.c:2271-2368 | Without assumptions on counters a program computes the first match of the expression whose open quantifiers stop at INT32_MAX where the code keeps a counter; of the expression itself if CountersFit. |
| Counters.AnyProgramTerminates | libregexp/libregexp.c:3073-3149 | Every run of every program that the compiler can produce reaches match or failure, whatever the text. |
| Counters.EmittedMeans | libregexp/libregexp.c:2346-2368 | If no counter can run out on the text, the expression with explicit bounds has the same outcomes as the expression, for every node, direction and state. |
| Counters.CountersFitExactly | libregexp/libregexp.c:2346-2368 | For the family `(?:a-or-nothing){min,}` over all texts of one letter and every min, the code finds what ECMA-262 finds iff CountersFit holds, so the guard cannot be weakened on this family. |
| Counters.CounterRunsOut | libregexp/libregexp.c:2351 | The smallest instance: a two-character subject of which the code matches one character and ECMA-262 both. |
| Elision.AdvanceElisionSound | libregexp/libregexp.c:1581-1602 | If the scan asks for no advance check, every outcome of the atom ends at another position than it started from. |
| Elision.InitExactlyForNonLinear | libregexp/libregexp.c:1616-1632 | The scan asks for a capture reset exactly for atoms that contain an alternative, a lookaround, a back reference or a quantifier other than `{0}`. |
| Elision.LinearLeavesOthers | libregexp/libregexp.c:2280-2305 | Such another atom keeps, in every outcome, each group that it does not always set as it was: one reset in front of the loop serves all iterations. |
| Elision.AlwaysSetsSound | libregexp/libregexp.c:2280-2305 | The groups that an atom always sets are set in every outcome, so that no reset per iteration is needed for them. |
| JumpTargets.FragClosed | libregexp/libregexp.c:2287-2368 | Every jump in the code of every term lands on the start of an instruction of that code or on its end: the code can be moved as a whole. |
| JumpTargets.CodeClosed | libregexp/libregexp.c:2287-2411 | The same for the code before registers are assigned, which is what is inserted in front of and rotated. |
| JumpTargets.ProgramClosed | libregexp/libregexp.c:2564-2586 | The same for whole programs. |
| RegisterAllocation.AllocationCorrect | libregexp/libregexp.c:2454-2515 | The linear pass over the code of any node succeeds, keeps the stack balanced, gives an initialiser and its loop the same registers, nests registers by loop depth, and peaks at the register count of the node. |
| UndoLog.LogStepRefines | libregexp/libregexp.c:2815-2935 | One step of the machine with an undo log is one step of the machine with full snapshots, skipped saves, resets, lookaheads and negative lookaheads included. |
| UndoLog.LogRefines | libregexp/libregexp.c:2784-3333 | So are any number of steps: backtracking restores exactly the memory that was current when the choice point was pushed. |
| UndoLog.MergeKeepsSnapshots | libregexp/libregexp.c:2884-2916 | Dropping the choice points of a finished lookahead and joining their log segments to the enclosing one changes none of the remaining snapshots. |
| Backtracker.ExecContext.Exec | libregexp/libregexp.c:2784-3333 | The loop over the bytecode with one cell array, `sp` and `bp` ends as the undo-log machine does: same verdict, position and capture array. |
| Backtracker.ExecContext.SaveCaptureCheck | libregexp/libregexp.c:2825-2843 | The value is written, and its old value logged exactly if this segment has not logged that slot yet. |
| Backtracker.ExecContext.NoMatch | libregexp/libregexp.c:2862-2883 | Undoes and pops to the innermost choice point that is not a lookahead; reports failure exactly if there is none. |
| Backtracker.ExecContext.LookaheadMatch | libregexp/libregexp.c:2884-2916 | Pops to the start of the lookahead and leaves one segment that holds the enclosing log followed by those of all discarded choice points, or nothing if no choice point is left and the enclosing log was empty. |
| Backtracker.ExecContext.Compact | libregexp/libregexp.c:2905-2914 | Copying the segments down over the records in place yields their concatenation. |
| Backtracker.ExecContext.DropNegative | libregexp/libregexp.c:2917-2935 | Pops to the start of the negative lookahead, with the log as it was when it was pushed and everything written since undone. |
| Backtracker.ExecContext.RangeMatch | libregexp/libregexp.c:3255-3319 | The binary search over the ranges finds c iff some range contains it, infinity included; the upper index never goes below the first range. |
| Backtracker.ExecContext.BackRefMatch | libregexp/libregexp.c:3184-3240 | The loop over the listed groups compares with the first set one, in either direction and every character mode, as the machine step does. |
| Backtracker.ExecContext.StackRealloc | libregexp/libregexp.c:2760-2781 | Growing the stack keeps every cell in use and makes the room asked for. |
| Encoding.DecodeEncode | libregexp/libregexp-opcode.h:27-71 | Wherever the bytes of an instruction stand in a buffer, decoding there yields the instruction and its size. |
| EmittedCode.FragEncodable | libregexp/libregexp.c:2206-2452 | Within the limits of the compiler every operand of emitted code fits its field. |
| Emitter.Compile | libregexp/libregexp.c:2532-2624 | Returns a buffer iff no limit is exceeded, and then header, counts, length and code are those of the program of the term. |
| Limits.GroupLimit | libregexp/libregexp.c:2020-2021 | Of groups inside groups 254 are accepted, and no more. |
| Limits.RegisterLimit | libregexp/libregexp.c:2475-2476 | Of counting loops inside counting loops 255 are accepted, and no more. |
| Limits.RangeLimit | libregexp/libregexp.c:1241-1242 | A class is accepted with 65534 ranges, and no more. |
| Limits.FlagsMean | libregexp/libregexp.h:36-44 | Sticky is bit 5 of the header, and a 16-bit subject is read as UTF-16 iff bit 4 or bit 8 is set. |
| Emitter.ParseState.EmitTerm | libregexp/libregexp.c:1855-2204 | Appends exactly the encoding of the code of the term and fails exactly if a limit of groups, ranges or links is exceeded. |
| Emitter.ParseState.EmitQuantifier | libregexp/libregexp.c:2258-2368 | Turns the bytes of an atom at the end of the buffer, by insertion in front and appending behind, into the encoding of the quantified atom, for every bound and greediness. |
| Emitter.ParseState.ScanAtom | libregexp/libregexp.c:1567-1638 | The scan over the bytes finds what the scan over the instructions finds. |
| Emitter.ParseState.EmitEither | libregexp/libregexp.c:2424-2450 | A split inserted before the first alternative and a goto patched behind the second one give the encoding of the alternation. |
| Emitter.ParseState.RotateTerm | libregexp/libregexp.c:2399-2411 | Grow, move up and copy back puts the last term in front of the alternative. |
| Emitter.ParseState.Insert | libregexp/libregexp.c:135-142 | Bytes before the position stay, bytes behind it move up by the length. |
| Emitter.ParseState.EmitLookaround | libregexp/libregexp.c:1965-1991 | Gives the encoding of the lookaround, whose jump is patched once the end is known. |
| Emitter.ParseState.EmitRange | libregexp/libregexp.c:1235-1269 | Refuses exactly 65535 ranges or more and otherwise appends the class instruction in the right width. |
| Emitter.ParseState.EmitStringList | libregexp/libregexp.c:1286-1362 | A class with strings becomes the encoding of the alternatives it stands for, empty string and single characters last. |
| Emitter.ParseState.PatchChain | libregexp/libregexp.c:1352-1357 | Following the links from the last goto to the first makes every one of them jump to the end. |
| Emitter.ParseState.ComputeRegisterCount | libregexp/libregexp.c:2454-2515 | Rewrites the register operands in the buffer to those of the allocation, or returns -1 exactly if more than 255 are needed at once. |
| ClassStrings.ListMeans | libregexp/libregexp.c:1286-1362 | The alternatives of a class with strings have as outcomes the strings that start here in list order, then one character, then nothing. |
| ClassStrings.LongestIsFirst | libregexp/libregexp.c:1271-1276 | With the strings sorted by falling length every outcome is tried before any shorter one. |
| CaptureBuffer.SlotsUsed | libregexp/libregexp.c:3378-3382 | lre_get_alloc_count of a compiled buffer is two slots per capture, group 0 included, and one per register of the expression. |
| CaptureBuffer.FewGroupsFit | libregexp/re_wrapper.c:232-237 | Expressions with at most 127 groups always fit the 512 slots of re_run. |
| CaptureBuffer.CompilesBeyondBuffer | libregexp/re_wrapper.c:232-237 | The limits of the compiler do not imply that the slots fit: an expression that compiles and needs more than 512. |
| CaptureBuffer.RunsBeyondBuffer | libregexp/libregexp.c:3067-3072 | On every text and from every start the run of its program comes to an instruction that writes slot 512 or a later one. |
| Utf16.RunsInStep | libregexp/libregexp.c:2631-2712 | A run over 16-bit units with surrogate pairs combined and the run over the code points they decode to stay in step, positions, captures and registers included. |
| Utf16.BoundariesKept | libregexp/libregexp.c:3184-3240 | Every reachable state of UTF-16 mode has its position, its set captures and its choice points on code-point boundaries. |
| Utf16.PrevThenGet | libregexp/libregexp.c:2631-2712 | From a boundary, stepping back and reading forward yields the same character and returns to the same place. |
| Utf16.Snap | libregexp/libregexp.c:3363-3369 | The start index is moved back by at most one unit, to a boundary, and not at all if it is on one. |
| Utf16.PathsAgree | libregexp/re_wrapper.c:247-316 | On units without surrogates every bytecode gives the same verdict, end and captures in 8-bit and in UTF-16 mode, from every start and after any number of steps. |
| Utf16.DecodedUnits | libregexp/cutils.h:1200-1238 | Decoding units to code points and encoding them again gives back every sequence, lone surrogates included. |
| CodecMeaning.ScalarsSurvive | libregexp/cutils.h:524-552 | Encoding characters to units and decoding them gives back every sequence of Unicode scalar values. |
| CharRange.Range.Operate | libregexp/libunicode.c:455-508 | The merge of two sorted lists computes union, intersection, symmetric difference or difference pointwise and leaves the list strictly increasing. |
| SetLaws.SubIsInterInverse | libregexp/libunicode.c:484-503 | The difference is point for point the intersection with the inverse. |
| SetLaws.InterAndSub | libregexp/libunicode.c:484-503 | Intersection and difference are disjoint and unite to the first list, point for point. |
| SetLaws.XorIsSub | libregexp/libunicode.c:484-503 | The symmetric difference is the union without the intersection. |
| SetLaws.InverseOfUnion | libregexp/libunicode.c:522-534 | The inverse of a union is the intersection of the inverses. |
| CharRange.Range.Compress | libregexp/libunicode.c:426-453 | Empty and touching intervals go, the set stays. |
| CharRange.UniqueStrict | libregexp/libunicode.c:426-453 | A set has one strictly increasing list: two with the same members are equal. |
| CharRange.Range.Invert | libregexp/libunicode.c:522-534 | Complement in [0, UINT32_MAX). |
| CharRange.InvertTwice | libregexp/libunicode.c:522-534 | On compressed lists inverting twice gives back the same points. |
| CharRange.Range.UnionInterval | libregexp/libunicode.h:94-100 | Adds exactly the characters of the closed interval. |
| CharRange.SortAndRemoveOverlap | libregexp/libunicode.c:1458-1492 | Intervals in any order, overlapping, touching or empty, become a list of the same set in order, which is compressed if none of them was empty. |
| CharRange.InIsInPoints | libregexp/libunicode.c:426-534 | Membership by counting points, on which the set algebra rests, is membership in some interval. |
| CaseFold.LreCanonicalize | libregexp/libunicode.c:228-262 | The binary search over a sorted table finds the only entry that covers the character. |
| CaseRuns.AsciiLetters | libregexp/libunicode.c:228-240 | The two forms of each ASCII letter fold to the lower one in unicode mode and to the upper one otherwise. |
| CaseRuns.PairsFold | libregexp/libunicode.c:77-82 | Both characters of each pair in a UL run fold to the lower one in unicode mode and to the upper one otherwise. |
| CaseRuns.TripleFolds | libregexp/libunicode.c:83-90 | So do all three characters of an LSU run. |
| CaseRuns.RunShifts | libregexp/libunicode.c:68-76 | U, L, UF and LF runs go in order and without gaps to the characters from the start of the run that the operand names, U and UF in legacy mode unless that leads into ASCII, UF and LF in unicode mode; otherwise they stay. |
| CaseRuns.OwnTarget | libregexp/libunicode.c:100-109 | Characters of UFD20 and UFD1Ext runs have one upper-case form, and fold to 0x20 or to one beyond it. |
| CaseRuns.SeveralStay | libregexp/libunicode.c:195-226 | Characters with several converted characters stay, but for the three that fold to a single equal in unicode mode. |
| CaseFold.CaseMask | libregexp/libunicode.c:1388-1449 | The mask is exactly the set of characters that some run of the table modifies in this mode. |
| CaseRuns.MaskIsChange | libregexp/libunicode.c:1388-1449 | A run type puts a character into the mask of a mode iff some operand makes the run change it in that mode. |
| CaseFold.OutsideMaskFixed | libregexp/libunicode.c:1506-1517 | Characters outside the mask are fixed points of folding. |
| CaseFold.Advance | libregexp/libunicode.c:1522-1539 | The cursor that only moves forward reaches the entry of the character and never runs off the table. |
| CaseFold.RegexpCanonicalize | libregexp/libunicode.c:1496-1578 | The set becomes exactly its image under lre_canonicalize, as a compressed list. |
| ClassMeaning.EmittedClass | libregexp/libregexp.c:1448-1462 | The instruction of a folded class accepts a character iff some member of the class folds to what it folds to: CharacterSetMatcher of ECMA-262. |
| ClassMeaning.NegatedClass | libregexp/libregexp.c:1530-1539 | A class that is folded and then inverted matches iff no member folds to what the character folds to. |
| ClassMeaning.ImageOfUnion | libregexp/libregexp.c:1448-1462 | Folding the parts of a class one by one and uniting them gives the image of the whole class. |
| PropTable.Prop1 | libregexp/libunicode.c:1340-1377 | The full linear decode yields exactly the members of the run-length table. |
| TableFormat.TableMeans | libregexp/libunicode.c:1340-1377 | Any list of runs, of which an item holds two short ones or one that is numbered from the smallest item of one, two or three bytes on, is decoded to these runs, in the set by turns. |
| TableFormat.TableParses | libregexp/libunicode.c:1340-1377 | Every table of whole items is such a list. |
| TableFormat.EntryRead | libregexp/libunicode.c:264-303 | An index entry of 21 bits of code point and three bits of offset leads to that code point and that far behind the block. |
| PropTable.GetIndexPos | libregexp/libunicode.c:272-303 | The binary search fails exactly beyond the end of the index, and otherwise yields a position and a code not beyond c that the linear decode passes through between intervals. |
| PropTable.IsInTable | libregexp/libunicode.c:305-338 | With an index consistent with the table the indexed lookup answers as the linear decode does, for every code point below the end of the index, and no beyond it. |
| Normalize.Buffer.ToNfdRec | libregexp/libunicode.c:1005-1031 | Appends the full decomposition of the source, for any acyclic decomposition table. |
| Normalize.SortCc | libregexp/libunicode.c:976-1003 | The array becomes the canonical ordering of what it held. |
| Normalize.OrderingIsStable | libregexp/libunicode.c:976-1003 | Canonical ordering rearranges, never moves a starter, and keeps the order of marks of the same class between starters. |
| Normalize.OrderedIsCanonical | libregexp/libunicode.c:976-1003 | Its result is in the canonical order of section 3.11 of the Unicode Standard. |
| Normalize.ToNfd | libregexp/libunicode.c:1049-1091 | The buffer that comes back is the ordering of the full decomposition. |
| Normalize.NfdNormal | libregexp/libunicode.c:1049-1091 | It is fully decomposed, canonically ordered and a stable rearrangement of the decomposition. |
| Normalize.NfdTwice | libregexp/libunicode.c:1049-1091 | Normalising twice is normalising once. |
| Normalize.HangulRoundTrip | libregexp/libunicode.c:1034-1047 | Composing the parts of any Hangul syllable gives back the syllable. |
| Normalize.ComposedParts | libregexp/libunicode.c:1034-1047 | What Hangul composition yields decomposes to what it was composed of iff the trailing part is not U+11A7. |
| Normalize.ComposeExactly | libregexp/libunicode.c:1034-1047 | A pair composes to a syllable iff it is what the syllable decomposes to, or a syllable without trailing part followed by U+11A7, which composes to itself. |
| Rqsort.Rqsort | libregexp/cutils.h:1422-1539 | For every comparator the array becomes a permutation of itself, and for every total preorder it is sorted. |
| Rqsort.Sorter.Run | libregexp/cutils.h:1439-1539 | The loop over the 50-slot stack terminates with all slots in bounds for every length and comparator: a segment that is pushed on top of k others has passed more than k levels of partition, and at most 50 are allowed. |
| Rqsort.Partition | libregexp/cutils.h:1452-1509 | The three-way pass and the two block swaps leave smaller elements in front, equal ones in the middle and larger ones behind. |
| Rqsort.HeapSort | libregexp/cutils.h:1380-1412 | The fallback sorts its segment and touches nothing else. |
| Rqsort.InsertionSort | libregexp/cutils.h:1533-1537 | So does insertion sort. |
| Utf8.DecodeFirst | libregexp/cutils.h:906-1052 | Decoding what was encoded yields the code point and its length, surrogates included. |
| CodecMeaning.DecodeExactly | libregexp/cutils.h:941-1052 | On any bytes the decoder takes the encoding of one code point, or if no encoding stands there one byte as U+FFFD. |
| Utf8.EncodeBuf16 | libregexp/cutils.h:1200-1238 | The length returned does not depend on the destination; what fits is the encoding, cut at a code point and terminated. |
| Utf8.DecodeBuf16 | libregexp/cutils.h:1130-1154 | Counts all units of the decoded text and stores those that fit. |
| Utf8.RoundTrip16 | libregexp/cutils.h:1130-1238 | Every sequence of 16-bit units survives encoding and decoding. |
| Utf8.Scan | libregexp/cutils.h:1054-1092 | Counts the units that decoding produces and classifies the text: ASCII or not, errors, beyond 8 bits, beyond the BMP. |
| Wrapper.CesuPatternToUtf8 | libregexp/re_wrapper.c:142-173 | The CESU-8 form of any units becomes their UTF-8 form, the same as utf8_encode_buf16 gives; the output never outgrows the input. |
| Wrapper.Cesu8ToUtf16 | libregexp/re_wrapper.c:182-204 | Any bytes become the units that decode_utf8_unit reads in them, with the offset at which each starts and the end. |
| CodecMeaning.RawThree | libregexp/re_wrapper.c:108-131 | A three-byte form yields its unit whatever the top bits of the trailing bytes are. |
| CodecMeaning.RawOne | libregexp/re_wrapper.c:108-131 | A truncated or unexpected lead byte is one unit of its own. |
| Wrapper.CesuUnits | libregexp/re_wrapper.c:108-204 | The CESU-8 form of any units is read as these units, and the offset of each is the length of the CESU-8 form of what precedes it. |
| Wrapper.UnitOfCesu | libregexp/re_wrapper.c:283-288 | A start offset at which a unit starts is mapped to that unit. |
| Wrapper.ReRun | libregexp/re_wrapper.c:213-324 | On any bytes, with or without the ASCII fast path, the verdict, the match and the captures reported are those of RegExpBuiltinExec on the units read, mapped to byte offsets of the input. |
| Wrapper.PlainAnswers | libregexp/re_wrapper.c:247-276 | For text without surrogates an answer in 8-bit mode is the same answer in UTF-16 mode. |
| Scheduler.ChunksDoNotMatter | scripts/run_test262.py:1032-1086 | How the output of a worker is cut into chunks does not change which verdict is read. |
| WorkerLines.OnlyTheseLines | scripts/run_test262.py:1051-1080 | A line is a verdict only if between blanks it is PASS, COMPILE_ERROR or FAIL, a space and a name, and then it is that verdict for that name. |
| WorkerLines.PassLine | scripts/run_test262.py:1051-1055 | Every such line is read: with PASS it is a pass of that test. |
| WorkerLines.FailLine | scripts/run_test262.py:1060-1061 | And with FAIL a fail. |
| WorkerLines.ScanReads | scripts/run_test262.py:1049-1086 | Of several lines and the beginning of another the first verdict is read, and the lines behind it are kept. |
| Scheduler.Worker.TryReadResult | scripts/run_test262.py:1032-1086 | A verdict is taken only for the pending test and frees the worker, it stands on a line of what the worker has printed; a line about another test is an error that leaves the test pending, and anything else leaves it pending. |
| Scheduler.Pool.ReadOne | scripts/run_test262.py:1321-1328 | If the worker's output now has a verdict, that one is recorded for the test it names, and nothing else is. |
| Scheduler.Pool.Give | scripts/run_test262.py:1304-1308 | Only a living idle worker, so never a killed one, gets the first test of the queue. |
| Scheduler.Pool.Assign | scripts/run_test262.py:1304-1308 | After it no living worker is idle while tests are left, and tests were taken from the front of the queue. |
| Scheduler.Pool.Condemn | scripts/run_test262.py:1331-1357 | After it no living worker that is over the limit, or too slow, holds a test; everything it records is MEMKILL, or TIMEOUT, for a test of such a worker, and no test was lost or judged twice. |
| Scheduler.Pool.Replace | scripts/run_test262.py:1359-1383 | Afterwards every worker is alive, and no test was lost or judged twice. |
| Scheduler.Pool.Round | scripts/run_test262.py:1303-1383 | One turn: unless a worker answered for another test, every verdict that is complete is recorded, a condemned worker is gone or was idle, everybody is alive, and if tests are left either everybody holds one or something was recorded. |
| Scheduler.Pool.Run | scripts/run_test262.py:1279-1385 | In every interleaving each test is always in exactly one of queue, worker or results, the counter counts the busy workers, and verdicts are never withdrawn; every verdict has a cause: a line that the worker printed since it was started, a round in which it was over the limit or too slow, or its death. The loop ends with exactly one verdict for each test unless the rounds run out or a worker answered for another test. |

## Findings

- **Counters.** The comment at `libregexp/libregexp.c:2351` assumes that texts are shorter than INT32_MAX.
  That is not enough: a loop that keeps a counter stops after INT32_MAX iterations, of which `min` may
  consume nothing. The condition is `CountersFit`, on which `CompileAndExec` and `ReRun` rest: `min` plus the
  length of the text is at most INT32_MAX for each quantifier whose emitted bound differs from the written
  one. `CountersFitExactly` shows that it is exact on a family of expressions; outside it the code computes
  what `Counters.Emitted` says. A failing run needs memory for about 2^31 choice points.
- **Capture array of `re_run`.** `libregexp/re_wrapper.c:232-237` has 512 slots on the stack and looks at the
  number of captures only, while `lre_exec` also keeps registers there (`libregexp/libregexp.c:3378-3382`).
  The slots are at least the allocation count iff `2 * (1 + groups) + registers <= 512`, which is
  `CaptureBuffer.SlotsFit`. `CompilesBeyondBuffer` has an expression that compiles and needs more,
  `RunsBeyondBuffer` follows its runs to the write, and up to 127 groups always fit.
  The comment above the array speaks of 64 slots. `Wrapper.ReRun` is about expressions for which they fit.
- **Hangul.** Composition at `libregexp/libunicode.c:1042` accepts U+11A7 as a trailing part, which section
  3.12 of the Unicode Standard excludes; `ComposedParts` and `ComposeExactly` say that these are the only pairs
  that do not decompose to themselves.

## Left out

- Reading pattern text: escapes, Annex B rules, modifiers, group names and their trailer, the capture
  prescan. The model starts from terms; non-capturing groups are nesting, flags are resolved.
- Classes with strings inside a lookbehind: the code around a class steps back over one character, so the
  engine does not support them.
- Set operations on the hash table of class strings. The list is taken sorted by length and, with the
  ignore-case flag, in folded form, as the class parser leaves it.
- Allocation failure other than by the stated limits, the timeout poll and the C stack check. The stack of
  the backtracker is a sequence that grows, and the packing of `bp` into a cell is not modelled.
- Emitter.Compile: of the memory limit only the final size is modelled. The original may run out earlier, since
  the buffer grows by half at a time and code that is discarded again counts while it is there.
- Emitter.ParseState.Insert: the byte buffer is a field of type `seq` that is reassigned, so aliasing of the
  buffer is not captured.
- EndToEnd.LreExec: the capture array has at least lre_get_alloc_count entries, which is what the C function
  asks of its callers.
- Wrapper.ReRun: asks for `SlotsFit`, because a write outside of an array has no meaning to model, and for a start
  inside the input. A null or freed expression is not modelled.
- Validation of serialised bytecode.
- CaseFold.RegexpCanonicalize: conversions to several characters, as in full case mapping, are not modelled,
  and the case table is any well-formed table instead of the data.
- CaseFold.LreCanonicalize: an entry of the table has its fields as they are unpacked from the 32-bit words.
- CaseFold.CaseMask: the two masks that folding uses, not the combinations for Unicode properties.
- Normalize.ToNfd: decomposition and combining classes are any acyclic tables; composition is modelled for
  Hangul only, because the rest is table data.
- Unicode property names, scripts and emoji sequences.
- Rqsort.Rqsort: elements are exchanged as values; the exchange functions by element size are not modelled.
- The 8-bit buffer codecs and the other helpers of `cutils.h`.
- Scheduler.Pool.Run: time, processes, memory and pipes are parameters of each round, a round that reads
  nothing included; what the runner prints, the serial retry and the fresh-process mode are left out.
- Scheduler.Worker.TryReadResult: a line is text already; decoding of bytes with replacement is left out.
- The date, number formatting, thread and path helpers, the handle registry, the bindings and the remaining
  scripts.
