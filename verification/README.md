# Proved models of the LLVM examples, use lists, alias analysis and the relaxed-memory interpreter

Each module models one piece of the repository and proves what that piece is for. `dafny verify dfyconfig.toml`
checks everything. Code that changes state is a class or a method with loops, proved against a function of its
inputs or of the old state; the theorems are lemmas about these functions.

**BrainF** (`BrainF*.dfy`). The one-pass compiler: a lexer with one symbol of lookahead that folds runs of `+-`
and `<>`, the recursive `readloop` that creates a loop's PHI before the body exists, and the optional bounds
checks. The class `BrainF` follows the code; what it leaves behind is the value of `Compile`. The language has a
semantics on characters and one on folded symbols, the generated blocks have an interpreter. Main results: the
compiled function halts exactly when the source ends, with the same output, tape, head and unread input; bounds
checks are exact for net displacements; the graph is well-formed SSA; brackets decide the outcome.

**Exceptions** (`Leb128.dfy`, `Exception*.dfy`). The decoders, the walk over action records, the two-phase
personality routine over a byte table (section 7.6 of DWARF 3 for the numbers, section 1.6 of the Itanium C++ ABI:
Exception Handling for the phases), and the generated catch and finally frames, nested to any depth under an
abstract unwinder.

**Barrier** (`Barrier.dfy`). The monitor of ParallelJIT as interleaved steps over any number of threads.

**Use lists** (`UseList.dfy`). The doubly linked lists through pointers to slots, always an index of the Uses that
refer to a value.

**Alias analysis** (`AliasAnalysis.dfy`, `AliasEvaluator.dfy`). The delegation chain against a concrete memory, and
the evaluator that counts answers in 32-bit counters. A memory says which instructions run; nothing that runs
writes into constant memory.

**DFENCE** (`StoreBuffers.dfy`, `SequentialConsistency.dfy`, `PartialStoreOrder.dfy`, `FenceConstraints.dfy`,
`PsoConstraints.dfy`, `ConstraintGenerator.dfy`, `FenceInsertion.dfy`, `FencedRuns.dfy`, `Litmus.dfy`,
`MemoryModels.dfy`, `Interpreter.dfy`, `TraceCheck.dfy`). The buffered memory models of the interpreter, the generator
of fence constraints with its numbering of literals, the rounds of the synthesis with merging and insertion of fences,
and the check of recorded histories. Main results: whatever the scheduler selects, the interpreter executes a run of
the model and records its history; a run in which no load passes a buffered store of its thread is sequentially
consistent; what TSO allows PSO allows; the generator rebuilds the real buffers exactly when flushes are recorded for
the right thread, and then its pairs are the bypasses of the run; a round of the synthesis that does not give up
excludes the runs that failed, under TSO always and under PSO exactly if merging leaves a fence behind the store of one
of their pairs, whichever threads later flushes are recorded for; the history check succeeds exactly if some order
explains the history.

## Assumptions

- BrainF: `malloc` succeeds with `mem` bytes (`mem` below 2^31) in an address space of at least 32 bits, and the tape
  does not reach its end; pointers wrap around there. `getchar` reads bytes and then end of input, `putchar` takes a
  byte, `puts` is a counter. The lexer's counters are integers without bound, while the code's are `int`; moves of the
  head must fit 32 bits, and this is a precondition (`SmallMoves`) where it matters.
- Exceptions: `uintptr_t` has 64 bits, `int` has 32, and a shift of an `int` by 32 or more is
  undefined; the decoders are called where their shifts are defined, and the round-trip lemmas say exactly where that
  is. The array of type infos, the address of the table and the words that indirect encodings read are parameters. The
  unwind table of a generated frame sends its call to the landing pad, with an action chain that lists the selector's
  arguments in order and ends in a cleanup.
- Barrier: waiting threads are woken by a broadcast only. The waits of the code are not in loops, and
  `SpuriousWakeupBreaksInv` shows that the invariant needs this.
- Alias analysis: opcodes other than load, store, call, invoke and va_arg touch no memory, which is what the code answers
  for them. The behaviours of intrinsics are parameters.
- DFENCE: accesses to the thread's own stack, which bypass the buffers, are not events. Instructions carry labels other
  than 0, as the synthesis tool gives them. All events of a run lie between spawn and join.

## Where the code falls short of its promise

- LEB128: numbers read back exactly below 2^31 (unsigned) and exactly in [-2^27, 2^31) (signed), because the shifted
  group is an `int`; the comments promise the encoding of section 7.6 of DWARF 3 without bound.
- The evaluator's summary line multiplies in 32 bits: it is right if and only if 100 times the count is below 2^32.
- A flush by the scheduler is recorded for the thread that ran last, not for the thread whose buffer was flushed; and a
  store-store fence under TSO flushes nothing but is recorded like a fence that does. The rebuilt buffers are the real
  ones if and only if every flush is recorded for its own thread or hits empty buffers, and, under TSO, every
  store-store fence finds an empty one (`RebuiltIsReal`, `PsoRebuiltIsReal`). `OverlookedBypass`,
  `OverlookedByStoreFence` and `OverlookedByPso` are runs that are not sequentially consistent and for which nothing
  is found to fence. All threads of these runs have records that begin with a label, as the generator asserts, and
  their orders are ones that `Scheduler.cpp` can choose (`Scheduled`).
- A compare-and-swap that fails is not recorded as an access; under PSO it may pass buffered stores. With flushes
  recorded as above, a run passes nothing if and only if nothing is found and no such failure passes a store
  (`NothingFoundIsNoBypass`); `OverlookedFailure` is a run that the generator misses.
- Merging looks up the store of a literal among the pairs of a store and a load only, so all pairs of two stores have
  the same store to it, and all but the first are dropped. A clause keeps the fence of a chosen literal exactly if one
  of them is covered otherwise (`ClauseKeepsFence`); under PSO its failed run is excluded if and only if some pair of
  the clause has a fenced store (`PsoRoundExcludesExactly`); `SecondPairIsLost` and `LaterPairsAreLost` are solutions
  that lose fences.

## Model

| member | source | states |
|---|---|---|
| BrainFSyntax.LexIsMaximallyFolded | examples/BrainF/BrainF.cpp:319-369 | no two moves and no two changes stand side by side: every run is folded as far as it goes |
| BrainFSyntax.CommentsDoNotMatter | examples/BrainF/BrainF.cpp:408-411 | characters that are no commands, also inside a run, do not change the symbols |
| BrainFSyntax.SymDepthOfSource | examples/BrainF/BrainF.cpp:417-466 | the bracket depth kept over folded symbols fails exactly when some prefix of the characters closes too many loops, and ends at 0 exactly for balanced sources |
| BrainFMachine.InitialMeans | examples/BrainF/BrainF.cpp:74-117 | a program starts on `mem` cells that are all 0, with the head in the middle, and nothing written |
| BrainFMachine.CellCharacters | examples/BrainF/BrainF.cpp:321-330 | what "+", "-", "." and "," do, each by itself: the cell goes up or down by one with wrap-around at 256, is written out, or becomes the next byte of the input, 255 at its end; and nothing else changes |
| BrainFMachine.HeadCharacters | examples/BrainF/BrainF.cpp:345-354 | ">" and "<" move the head one cell up or down; with checks it must stay on the tape |
| BrainFMachine.LoopCharacters | examples/BrainF/BrainF.cpp:282-299 | "[" and "]" by the cell under the head: skip to behind the matching bracket, enter, leave, or repeat |
| BrainFMachine.SkipsBehindLoop | examples/BrainF/BrainF.cpp:282-303 | the matching bracket is the "]" in front of which the body is balanced |
| BrainFMachine.CharactersOffTape | examples/BrainF/BrainF.cpp:236-266 | off the tape every command that uses a cell faults |
| BrainFMachine.OtherCharacters | examples/BrainF/BrainF.cpp:408-411 | every other character changes nothing |
| BrainFFolding.RunStep | examples/BrainF/BrainF.cpp:319-369 | a pending run and the machine behind it: the characters of the run have, one by one, the effect of the folded symbol |
| BrainFFolding.FoldedStopsToo | examples/BrainF/BrainF.cpp:311-414 | if the character program stops after n steps, the folded one has stopped after n + 1, with the same status, tape, head, unread input and output |
| BrainFFolding.SourceStopsToo | examples/BrainF/BrainF.cpp:311-414 | if the folded program stops, so does the character program, with the same status, tape, head, unread input and output |
| BrainFFolding.FoldingPreservesMeaning | examples/BrainF/BrainF.cpp:311-414 | characters and folded symbols stop together, with the same tape, head, unread input and output |
| BrainFCodegen.GenSymKeepsInv | examples/BrainF/BrainF.cpp:193-455 | every symbol keeps the block graph extendable: the insertion block and the tests of open loops are unfinished, and each open loop has its half-made PHI |
| BrainFCodegen.CompileOutcome | examples/BrainF/BrainF.cpp:417-466 | compiled if and only if balanced; "Extra" exactly if some prefix closes too many loops; "Missing" exactly if none does and a loop is left open |
| BrainFCodegen.CommentsAreNotCompiled | examples/BrainF/BrainF.cpp:408-411 | deleting all other characters leaves the generated graph unchanged |
| BrainFCompiler.BrainF.WriteHeader | examples/BrainF/BrainF.cpp:74-117 | the entry block with allocation, clearing, the end of the tape and the head in its middle, then the blocks behind the program |
| BrainFCompiler.BrainF.WriteFooter | examples/BrainF/BrainF.cpp:118-180 | the end block frees and returns; with bounds checks the error block prints and goes there |
| BrainFCompiler.BrainF.WriteRead | examples/BrainF/BrainF.cpp:200-214 | state becomes that of the read symbol: getchar, truncation, store |
| BrainFCompiler.BrainF.WriteWrite | examples/BrainF/BrainF.cpp:216-234 | state becomes that of the write symbol: load, sign extension, putchar |
| BrainFCompiler.BrainF.WriteMove | examples/BrainF/BrainF.cpp:236-266 | state becomes that of a move: pointer arithmetic, and with bounds checks two comparisons and a new block |
| BrainFCompiler.BrainF.WriteChange | examples/BrainF/BrainF.cpp:268-280 | state becomes that of a change: load, add of the 8-bit value, store |
| BrainFCompiler.BrainF.OpenLoop | examples/BrainF/BrainF.cpp:282-299 | state becomes that of "[": the test block with its half-finished PHI, and the frame of the loop |
| BrainFCompiler.BrainF.CloseLoop | examples/BrainF/BrainF.cpp:423-455 | state becomes that of "]": the PHI is finished, the test is written, code goes on in a new block |
| BrainFCompiler.BrainF.ReadSymbol | examples/BrainF/BrainF.cpp:311-414 | one turn of the reading loop with its lookahead: the symbols still to come are the same before and after, less the one that was written |
| BrainFCompiler.BrainF.ReadLoop | examples/BrainF/BrainF.cpp:183-467 | consumes exactly the body of its loop or the whole source; what the whole source compiles to does not change while it runs; it ends at "]", at the end of the source, or with the error of the brackets |
| BrainFCompiler.BrainF.WriteSymbol | examples/BrainF/BrainF.cpp:193-309 | writes the current symbol, for "[" the whole loop; what is left to compile stays the same |
| BrainFCompiler.BrainF.CompileLoop | examples/BrainF/BrainF.cpp:282-303 | a whole loop behind its "[": the source goes on behind the matching "]" |
| BrainFCompiler.BrainF.Parse | examples/BrainF/BrainF.cpp:40-50 | the compiler class refines the function `Compile`; on "Extra" it has read exactly up to the offending bracket, else the whole source |
| BrainFLayout.AfterGrows | examples/BrainF/BrainF.cpp:193-455 | code written later never changes a block that has been ended, nor instructions written before, except that a PHI of a block not yet ended may get entries |
| BrainFLayout.CodeOfCommand | examples/BrainF/BrainF.cpp:200-280 | the finished code of every read, write, change and move: exactly these instructions, in the block and from the place where code went on in front of it; and where code goes on behind |
| BrainFLayout.CodeOfLoop | examples/BrainF/BrainF.cpp:282-299 | the finished code of every loop: both ends lead to the test block, which is exactly a PHI with two entries, the load, the comparison and the branch; the block behind begins with a PHI of exactly one entry |
| BrainFSimulation.SimRead | examples/BrainF/BrainF.cpp:200-214 | the three instructions of a read do what "," does: byte or 255, in the cell under the head |
| BrainFSimulation.SimWrite | examples/BrainF/BrainF.cpp:216-234 | the three instructions of a write append the cell to the output |
| BrainFSimulation.SimChange | examples/BrainF/BrainF.cpp:268-280 | the three instructions of a change add modulo 256 |
| BrainFSimulation.SimMoveUnchecked | examples/BrainF/BrainF.cpp:236-241 | pointer arithmetic moves the head by the net displacement |
| BrainFSimulation.CheckIsExact | examples/BrainF/BrainF.cpp:243-256 | the unsigned comparisons of a wrapped pointer pass exactly on the tape |
| BrainFSimulation.SimMoveChecked | examples/BrainF/BrainF.cpp:236-266 | a checked move goes on in the new block if the head is on the tape, else in the error block |
| BrainFSimulation.SimBracket | examples/BrainF/BrainF.cpp:423-455 | from either end of a loop through its PHI and test into the body or behind it, with the head passed along |
| BrainFPreservation.SimHeader | examples/BrainF/BrainF.cpp:74-117 | the entry block leaves a cleared tape with the head in its middle |
| BrainFPreservation.SimTrap | examples/BrainF/BrainF.cpp:131-180 | the error block prints once, frees and returns |
| BrainFPreservation.CompiledMeansFolded | examples/BrainF/BrainF.cpp:183-467 | graph and folded program stop together and then agree, and the graph never does anything undefined |
| BrainFPreservation.CompilationPreservesMeaning | examples/BrainF/BrainF.cpp:183-467 | without bounds checks: for balanced sources that use cells on the tape only, the compiled function halts exactly when the source ends, with the same output, tape, head and unread input |
| BrainFPreservation.BoundsChecksAreExact | examples/BrainF/BrainF.cpp:236-266 | with bounds checks: every load and store hits the tape whatever the source; the function returns exactly when the folded program stops; and it has printed the error, once, if and only if the program run without checks, before it uses a cell off the tape, ends some maximal move run with its head off the tape |
| BrainFPreservation.OnTapeSourceNeverTraps | examples/BrainF/BrainF.cpp:236-266 | a source that stays on the tape step by step means the same with checks, and never prints the error |
| BrainFWellFormed.AvailableIsDefined | examples/BrainF/BrainF.cpp:423-455 | a register that the data flow equations make available is defined on every path from the entry |
| BrainFSsa.MoveOk | examples/BrainF/BrainF.cpp:236-266 | a move keeps a solution of the data flow equations, also where it splits the block |
| BrainFSsa.LoopOk | examples/BrainF/BrainF.cpp:282-299 | so does opening a loop with a half-made PHI |
| BrainFSsa.EndLoopOk | examples/BrainF/BrainF.cpp:423-455 | so does closing it: the PHI then has one entry per predecessor |
| BrainFSsa.CompiledIsWellFormed | examples/BrainF/BrainF.cpp:183-467 | every balanced source compiles to a graph with one terminator per block, PHI entries that are exactly the predecessors, single definitions, and every use dominated by its definition |
| Leb128.ReadULEB128 | examples/ExceptionDemo/ExceptionDemo.cpp:372-389 | the loop reads the value of the groups and ends behind the last byte |
| Leb128.ReadSLEB128 | examples/ExceptionDemo/ExceptionDemo.cpp:396-416 | the loop reads the groups, and spreads the sign if the last one has it |
| Leb128.ULebRoundTrip | examples/ExceptionDemo/ExceptionDemo.cpp:372-389 | an encoded value reads back, with its exact length, if and only if it is below 2^31 |
| Leb128.SLebRoundTrip | examples/ExceptionDemo/ExceptionDemo.cpp:396-416 | an encoded value reads back, with its exact length, if and only if it is in [-2^27, 2^31) |
| Leb128.ManyRoundTrip | examples/ExceptionDemo/ExceptionDemo.cpp:372-389 | a concatenation of k encodings reads back as the k values |
| Leb128.EncodingExamples | examples/ExceptionDemo/ExceptionDemo.cpp:367-416 | the encodings are those of the examples in section 7.6 of DWARF 3 |
| ExceptionTables.ReadEncodedPointer | examples/ExceptionDemo/ExceptionDemo.cpp:425-501 | value and end of every supported encoding, also relative to the position and indirect; abort exactly on any other |
| ExceptionTables.FirstMatchIsFirst | examples/ExceptionDemo/ExceptionDemo.cpp:553-592 | position i + 1 if and only if record i is the first with a matching type, cleanups counted |
| ExceptionTables.ChainIsWalk | examples/ExceptionDemo/ExceptionDemo.cpp:553-592 | a finite chain of records is one that can be walked for every type |
| ExceptionTables.HandleActionValue | examples/ExceptionDemo/ExceptionDemo.cpp:522-595 | found, with the position of the first matching record, if and only if some record of the chain matches; never for foreign exceptions; what lies behind the first match does not matter |
| ExceptionTables.EarlierLinksEnd | examples/ExceptionDemo/ExceptionDemo.cpp:553-592 | if every link leads to an earlier record, the walk from any record ends |
| ExceptionTables.SelectIsSite | examples/ExceptionDemo/ExceptionDemo.cpp:669-717 | the selected entry is the first with a landing pad that covers the offset, and there is none exactly if no entry does |
| ExceptionTables.PhasesAgree | examples/ExceptionDemo/ExceptionDemo.cpp:669-783 | the search finds a handler if and only if the cleanup enters a landing pad with a positive selector; a foreign exception never has a handler and enters with selector 0 |
| ExceptionTables.DecisionAtAddress | examples/ExceptionDemo/ExceptionDemo.cpp:627-732 | by the return address: the first call site with a landing pad that begins before the return address and ends at it or behind it counts; the search stops if one of its records has the type; the cleanup enters its own landing pad with the number of the first such record, or 0 |
| ExceptionTables.BytesOfNumbers | examples/ExceptionDemo/ExceptionDemo.cpp:447-480 | fixed-size numbers have their lowest byte first |
| ExceptionTables.OurClassIs | examples/ExceptionDemo/ExceptionDemo.cpp:842-851 | the exception class is made of the bytes of "obj", 0, "bas", 0 |
| ExceptionTables.ReadHeader | examples/ExceptionDemo/ExceptionDemo.cpp:638-666 | the header: encoding, start and end of the call site table |
| ExceptionTables.ReadCallSite | examples/ExceptionDemo/ExceptionDemo.cpp:669-678 | one whole record, and where the next begins |
| ExceptionTables.HandleLsda | examples/ExceptionDemo/ExceptionDemo.cpp:609-784 | both phases over the bytes, in any supported encoding, decide as `Personality` does on the abstract entries, and by addresses as `DecisionAtAddress` says; registers are written only when a landing pad is entered |
| ExceptionEncoding.PointerReadsBack | examples/ExceptionDemo/ExceptionDemo.cpp:425-501 | a uleb128 or udata4 pointer reads back, with its exact length |
| ExceptionEncoding.AnyPointerReadsBack | examples/ExceptionDemo/ExceptionDemo.cpp:425-501 | every supported encoding, of two, four or eight bytes or LEB128, signed or not, absolute or relative to its own place, direct or through a pointer: the address that was written is read, with its exact length |
| ExceptionEncoding.TableReadsBack | examples/ExceptionDemo/ExceptionDemo.cpp:659-678 | a serialized call site table reads back record by record and ends exactly at its end |
| ExceptionEncoding.ChainReadsBack | examples/ExceptionDemo/ExceptionDemo.cpp:553-592 | a serialized chain of action records reads back |
| ExceptionEncoding.ActionsReadBack | examples/ExceptionDemo/ExceptionDemo.cpp:553-592 | the action fields of serialized call sites lead to the serialized records of their chains |
| ExceptionEncoding.HeaderReadsBack | examples/ExceptionDemo/ExceptionDemo.cpp:638-666 | a serialized header reads back |
| ExceptionEncoding.SerializedIsWellFormed | examples/ExceptionDemo/ExceptionDemo.cpp:609-784 | any serialized area, in either encoding, with its call sites and the action records of their chains, is one on which `HandleLsda` decides as on the entries it was written from |
| ExceptionEncoding.ExampleArea | examples/ExceptionDemo/ExceptionDemo.cpp:638-717 | one serialized area, byte by byte |
| ExceptionFrames.FrameBuilder.CreateFinallyBlock | examples/ExceptionDemo/ExceptionDemo.cpp:969-1027 | the finally block switches on the flag; flag and storage are initialised at the front of the entry block |
| ExceptionFrames.FrameBuilder.CreateCatchBlock | examples/ExceptionDemo/ExceptionDemo.cpp:1042-1072 | a catch block marks the exception caught and goes to the finally block |
| ExceptionFrames.FrameBuilder.FillExceptionPath | examples/ExceptionDemo/ExceptionDemo.cpp:1235-1360 | the landing pad stores the exception, tells foreign ones apart, and switches on the selector |
| ExceptionFrames.FrameBuilder.CreateCatchWrappedInvokeFunction | examples/ExceptionDemo/ExceptionDemo.cpp:1095-1364 | the builder leaves exactly the finished blocks of a function that catches n types |
| ExceptionUnwind.FinallyPath | examples/ExceptionDemo/ExceptionDemo.cpp:969-1027 | from the finally block: resume if the exception is pending, else free it if it is ours and return |
| ExceptionUnwind.LandingPath | examples/ExceptionDemo/ExceptionDemo.cpp:1235-1360 | from the landing pad: the selected catch block, the finally block and the return, or the finally block and the resume |
| ExceptionUnwind.SelectorIsPosition | examples/ExceptionDemo/ExceptionDemo.cpp:553-592 | the selector is the position of the type in the catch list |
| ExceptionUnwind.FrameDecision | examples/ExceptionDemo/ExceptionDemo.cpp:669-783 | a frame is a handler exactly if it lists the type, and is entered with that position |
| ExceptionUnwind.NestedFrames | examples/ExceptionDemo/ExceptionDemo.cpp:1095-1364 | any nesting: the innermost frame that lists the type catches at its first match; inner frames run their finally blocks and resume; outer frames see a normal return; without a match, or for a foreign exception, the harness gets it |
| ExceptionUnwind.FinallyRunsOnce | examples/ExceptionDemo/ExceptionDemo.cpp:1095-1364 | the finally block of every frame runs exactly once, whatever is thrown |
| ExceptionUnwind.CatcherTakes | examples/ExceptionDemo/ExceptionDemo.cpp:1095-1364 | the frame that takes an exception of this runtime is the innermost one whose list of types has its type |
| ExceptionUnwind.FrameRuns | examples/ExceptionDemo/ExceptionDemo.cpp:1095-1364 | of any nesting, for each frame: a catch block runs if and only if the frame takes the exception, and is that of the first entry for the type; it runs before the finally block; the exception is freed behind that, there and nowhere else; a frame returns normally if and only if one inside of it has taken the exception |
| Barrier.WaitForThreads.Block | examples/ParallelJIT/ParallelJIT.cpp:149-173 | the body of block is the step of the model, and its assertion holds under the invariant |
| Barrier.WaitForThreads.ReleaseThreads | examples/ParallelJIT/ParallelJIT.cpp:178-196 | the body of releaseThreads is the step of the model |
| Barrier.WaitForThreads.UnblockThreads | examples/ParallelJIT/ParallelJIT.cpp:199-213 | both counters are reset and everyone who sleeps is woken |
| Barrier.AlwaysInv | examples/ParallelJIT/ParallelJIT.cpp:149-213 | any callers, any interleaving: n counts the sleeping block callers and stays below the number waited for |
| Barrier.SpuriousWakeupBreaksInv | examples/ParallelJIT/ParallelJIT.cpp:149-196 | a wakeup without broadcast breaks the invariant |
| Barrier.NobodyLeavesEarly | examples/ParallelJIT/ParallelJIT.cpp:149-213 | k callers of block and one release: nobody leaves before all have entered and the release was called |
| Barrier.NeverStuck | examples/ParallelJIT/ParallelJIT.cpp:149-213 | while someone has not returned, someone can step |
| Barrier.EveryoneReturns | examples/ParallelJIT/ParallelJIT.cpp:149-213 | every interleaving is finite, and one that cannot go on has let all k + 1 callers return |
| UseList.Use.AddToList | include/llvm/Use.h:128-133 | inserts at the pointer in front of position k; the list stays linked both ways |
| UseList.Use.RemoveFromList | include/llvm/Use.h:134-138 | takes out one Use through its back pointer alone |
| UseList.Use.Set | include/llvm/Value.h:317-321 | leaves the old list, enters the new one at its front; every other Use keeps value and order, in every list |
| UseList.Value.AddUse | include/llvm/Value.h:198 | the Use becomes the first of the list |
| UseList.Value.HasOneUse | include/llvm/Value.h:174-178 | true if and only if the list has exactly one element |
| UseList.UsesAreIndexed | include/llvm/Value.h:162-178 | the list of a value holds exactly the Uses that refer to it, once each, and is empty exactly if there are none |
| UseList.WithoutKeepsOrder | include/llvm/Use.h:134-138 | taking Uses out keeps the relative order of the others |
| UseList.User.SetOperand | include/llvm/User.h:107-113 | one operand changes, and the index is kept |
| UseList.User.DropAllReferences | include/llvm/User.h:144-147 | every list loses exactly the operands of this user, and the index is kept |
| UseList.BranchInst.SetSuccessor | include/llvm/Instructions.h:2075-2078 | successor i is set, and the index is kept |
| UseList.BranchInst.Conditional | lib/VMCore/Instructions.cpp:801-812 | a branch made from a condition and two targets returns these as its successors and its condition; the index is kept |
| UseList.BranchInst.SuccessorsAreLast | include/llvm/Instructions.h:2000-2003 | the true target is the last operand that the branch shows, the false target the one before, the condition the first |
| UseList.BranchInst.SetUnconditionalDest | include/llvm/Instructions.h:2058-2066 | one successor is left; old targets and condition lose exactly this branch, also where they are the new target, which gains one Use |
| AliasAnalysis.GetModRefInfo | lib/Analysis/AliasAnalysis.cpp:131-161 | the shrinking mask and the loop over arguments compute the combined answer of the chain |
| AliasAnalysis.AliasIsFirst | lib/Analysis/AliasAnalysis.cpp:45-50 | the first analysis of the chain that answers alias queries gets the query as it was asked |
| AliasAnalysis.ConstantIsFirst | lib/Analysis/AliasAnalysis.cpp:52-55 | the same for constant memory |
| AliasAnalysis.BehaviourIs | lib/Analysis/AliasAnalysis.cpp:98-123 | attributes of the call count first, then those of the function, then its intrinsic; without any of them nothing is known |
| AliasAnalysis.CallAnswer | lib/Analysis/AliasAnalysis.cpp:131-161 | the answer for a call, exactly: it may read if and only if no analysis of the chain knows that it does not access the pointer; it may write if and only if, besides, none knows that it only reads, and none behind the first that the pointer is constant |
| AliasAnalysis.InstrAnswer | lib/Analysis/AliasAnalysis.cpp:78-96 | the answer for any instruction, exactly: a load references and never modifies, a store modifies and never references, and that only if their query is not NoAlias |
| AliasAnalysis.CanInstructionRangeModify | lib/Analysis/AliasAnalysis.cpp:204-217 | true if and only if some instruction of the range, both ends included, is a va_arg, a call that may write to the pointer, or a store that may alias it while it is not constant; so never for loads alone |
| AliasAnalysis.CanBasicBlockModify | lib/Analysis/AliasAnalysis.cpp:194-197 | the same for a whole block |
| AliasAnalysis.AliasIsSound | lib/Analysis/AliasAnalysis.cpp:45-50 | a NoAlias answer of a chain of any length is true of the memory |
| AliasAnalysis.ConstantMayBeRead | lib/Analysis/AliasAnalysis.cpp:52-55 | a sound chain may call a pointer constant that has bytes and is loaded from |
| AliasAnalysis.BehaviourIsSound | lib/Analysis/AliasAnalysis.cpp:98-123 | the behaviour of a call is true, whichever attribute it comes from |
| AliasAnalysis.CallModRefIsSound | lib/Analysis/AliasAnalysis.cpp:131-161 | for a call that runs, the answer covers every byte it reads or writes |
| AliasAnalysis.ModRefCoversEffects | lib/Analysis/AliasAnalysis.cpp:78-161 | if every layer is sound for a memory, the composed answer for any instruction that runs covers every real read and write |
| AliasAnalysis.NeverLessPrecise | lib/Analysis/AliasAnalysis.cpp:153-160 | for a call the chain is never less precise than the rest of the chain |
| AliasAnalysis.RangeLeavesBytes | lib/Analysis/AliasAnalysis.cpp:204-217 | if no instruction of a range may modify the pointer, executing the range leaves its bytes unchanged |
| AliasEvaluator.Collect | lib/Analysis/AliasAnalysisEvaluator.cpp:114-135 | pointers and calls of a function, as the worklists collect them |
| AliasEvaluator.PointersAreCollected | lib/Analysis/AliasAnalysisEvaluator.cpp:117-132 | the pointers are exactly the pointer arguments, the instructions that are pointers, and their pointer operands, null and the function of a direct call left out |
| AliasEvaluator.CallsAreCollected | lib/Analysis/AliasAnalysisEvaluator.cpp:121-135 | the calls are exactly those of the function |
| AliasEvaluator.QueriesOfFunction | lib/Analysis/AliasAnalysisEvaluator.cpp:142-198 | p distinct pointers and c distinct calls make p(p-1)/2 and c * p queries |
| AliasEvaluator.PointersGrow | lib/Analysis/AliasAnalysisEvaluator.cpp:117-135 | pointers and calls stand in the order in which they are met first |
| AliasEvaluator.AnswersOfFunction | lib/Analysis/AliasAnalysisEvaluator.cpp:142-198 | every pointer is asked about with every earlier one, and every call with every pointer, once: the number of answers of a kind is the number of these pairs with that answer |
| AliasEvaluator.AnswersAre | lib/Analysis/AliasAnalysisEvaluator.cpp:142-198 | and so over all functions |
| AliasEvaluator.AAEval.RunOnFunction | lib/Analysis/AliasAnalysisEvaluator.cpp:111-201 | every 32-bit counter grows by the number of pairs of a pointer and an earlier one, or of a call and a pointer, about which the answer is its own |
| AliasEvaluator.PercentRoundsDown | lib/Analysis/AliasAnalysisEvaluator.cpp:203-206 | the printed percentage is the ratio rounded down to a tenth |
| AliasEvaluator.SummaryPercentIsRight | lib/Analysis/AliasAnalysisEvaluator.cpp:221-223 | the summary percentage is right if and only if 100 times the count is below 2^32 |
| AliasEvaluator.AAEval.FinalizeAliases | lib/Analysis/AliasAnalysisEvaluator.cpp:208-224 | the alias half of the report: total, counts and percentages |
| AliasEvaluator.AAEval.FinalizeModRefs | lib/Analysis/AliasAnalysisEvaluator.cpp:226-245 | the mod/ref half of the report |
| AliasEvaluator.Evaluate | lib/Analysis/AliasAnalysisEvaluator.cpp:111-246 | over any list of functions: the counters sum to the total of p(p-1)/2 and of c * p, modulo 2^32; below that every line has the number of pairs with its answer, and every printed percentage is right |
| StoreBuffers.ScConcat | lib/ExecutionEngine/Interpreter/Execution.cpp:1049-1075 | runs without buffers compose |
| SequentialConsistency.ChainRuns | lib/ExecutionEngine/Interpreter/Execution.cpp:1385-1402 | buffered stores, with the loads that forwarded them, can be executed at one go |
| SequentialConsistency.RunIsOrdered | lib/ExecutionEngine/Interpreter/Execution.cpp:1077-1402 | the order in which stores reach memory, each with its forwarded loads, is a run without buffers with the same memory; per thread it is the program, up to what is still buffered |
| SequentialConsistency.NoBypassIsSequentiallyConsistent | lib/ExecutionEngine/Interpreter/Constraints.cpp:193-227 | a run under TSO in which no load passes a buffered store of its thread to another address is sequentially consistent, whatever the interleaving and the flushes |
| SequentialConsistency.NoBypassSameMemory | lib/ExecutionEngine/Interpreter/Constraints.cpp:193-227 | and with empty buffers at the end it leaves the same memory |
| SequentialConsistency.FencedDoesNotBypass | lib/ExecutionEngine/Interpreter/Execution.cpp:1422-1440 | a fence, or a compare-and-swap, between every store and later load of a thread keeps loads from bypassing |
| SequentialConsistency.FencedIsSequentiallyConsistent | lib/ExecutionEngine/Interpreter/Execution.cpp:1422-1440 | so a run with that between every store and later load of another address of a thread is sequentially consistent |
| SequentialConsistency.ScRunsUnderTso | lib/ExecutionEngine/Interpreter/Execution.cpp:1049-1102 | what can happen without buffers can happen under TSO |
| PartialStoreOrder.DrainsTheSame | lib/ExecutionEngine/Interpreter/Execution.cpp:1404-1440 | a fence under PSO, address by address, leaves the memory that one under TSO leaves |
| PartialStoreOrder.TsoRunsUnderPso | lib/ExecutionEngine/Interpreter/Execution.cpp:1077-1440 | every run under TSO without store-store fences is one under PSO with the same results and memory |
| PartialStoreOrder.NoBypassUnderTso | lib/ExecutionEngine/Interpreter/Execution.cpp:1104-1440 | a run under PSO that passes nothing is a run under TSO that bypasses nothing |
| PartialStoreOrder.PsoNoBypassIsSequentiallyConsistent | lib/ExecutionEngine/Interpreter/Constraints.cpp:229-296 | and so it is sequentially consistent |
| PartialStoreOrder.PsoFencedDoesNotBypass | lib/ExecutionEngine/Interpreter/Execution.cpp:1404-1440 | under PSO: if between every store and later access of the thread to another address its buffer is emptied, by either fence or a compare-and-swap there, nothing is passed |
| PartialStoreOrder.PsoFencedIsSequentiallyConsistent | lib/ExecutionEngine/Interpreter/Execution.cpp:1404-1440 | and so the run is sequentially consistent |
| MemoryModels.ScRunExactly | lib/ExecutionEngine/Interpreter/Execution.cpp:1048-1075 | a sequence is a run without buffers if and only if every load returns, and every compare-and-swap compares with, the last value written to its address |
| MemoryModels.StoreIsPrivate | lib/ExecutionEngine/Interpreter/Execution.cpp:1077-1102 | a buffered store is seen by its own thread at once, and by no other |
| MemoryModels.FencePublishes | lib/ExecutionEngine/Interpreter/Execution.cpp:1422-1440 | after a fence, or a failed compare-and-swap, all threads with empty buffers see what its thread saw |
| MemoryModels.CasIsAtomic | lib/ExecutionEngine/Interpreter/Execution.cpp:1557-1662 | a compare-and-swap compares with what its thread sees; then all threads with empty buffers see what it left |
| MemoryModels.FlushMovesOldest | lib/ExecutionEngine/Interpreter/Execution.cpp:1385-1402 | a flush moves the oldest store of one thread into memory, and nothing else |
| MemoryModels.PsoStoreIsPrivate | lib/ExecutionEngine/Interpreter/Execution.cpp:1104-1124 | the same for the buffers of each address |
| MemoryModels.PsoFencePublishes | lib/ExecutionEngine/Interpreter/Execution.cpp:1404-1440 | under PSO either fence publishes the stores to all addresses |
| MemoryModels.PsoCasIsAtomic | lib/ExecutionEngine/Interpreter/Execution.cpp:1557-1662 | under PSO a compare-and-swap publishes its own address and leaves all others |
| MemoryModels.PsoFlushMovesOldest | lib/ExecutionEngine/Interpreter/Execution.cpp:1354-1383 | a flush moves the oldest store to one address |
| MemoryModels.AccessesAreRecorded | lib/ExecutionEngine/Interpreter/Execution.cpp:1077-1248 | under TSO the history shows the accesses of every thread in program order, with address and label; a compare-and-swap only if it succeeds, and without label |
| MemoryModels.PsoAccessesAreRecorded | lib/ExecutionEngine/Interpreter/Execution.cpp:1104-1338 | under PSO too, with the label of the compare-and-swap |
| Interpreter.Interpreter.LoadTso | lib/ExecutionEngine/Interpreter/Execution.cpp:1216-1248 | the newest buffered store to the address, else memory |
| Interpreter.Interpreter.StoreTso | lib/ExecutionEngine/Interpreter/Execution.cpp:1077-1102 | buffered and recorded, as the model says |
| Interpreter.Interpreter.DrainTso | lib/ExecutionEngine/Interpreter/Execution.cpp:1425-1428 | flushing until empty puts the whole buffer into memory, oldest first |
| Interpreter.Interpreter.MembarSsTso | lib/ExecutionEngine/Interpreter/Execution.cpp:1404-1420 | changes nothing under TSO, and is recorded like a fence that flushes |
| Interpreter.Interpreter.MembarSlTso | lib/ExecutionEngine/Interpreter/Execution.cpp:1422-1440 | drains the buffer of the thread |
| Interpreter.Interpreter.CasTso | lib/ExecutionEngine/Interpreter/Execution.cpp:1557-1662 | drains, compares and swaps in one step |
| Interpreter.Interpreter.FlushActionTso | lib/ExecutionEngine/Interpreter/Execution.cpp:3106-3110 | flushes one store of one thread, and records it for the thread that ran last |
| Interpreter.Interpreter.StepTso | lib/ExecutionEngine/Interpreter/Execution.cpp:3076-3116 | one turn of the main loop executes one enabled event of the model, records it, and keeps track of the thread that ran last |
| Interpreter.Interpreter.RunTso | lib/ExecutionEngine/Interpreter/Execution.cpp:3036-3118 | whatever the scheduler selects, what has been executed is a run under TSO with the state and the history of the model, and its events are the selected actions in order |
| Interpreter.ActionIsPerformed | lib/ExecutionEngine/Interpreter/Execution.cpp:3076-3116 | an event is of the thread, kind, address and instruction that was selected, with its values |
| Interpreter.CurrentIsLast | lib/ExecutionEngine/Interpreter/Execution.cpp:3076-3104 | the thread that ran last is that of the last selected instruction |
| Interpreter.StoredIsLoaded | lib/ExecutionEngine/Interpreter/Execution.cpp:1216-1248 | whatever was selected before, under either model a thread loads what it has just stored |
| Interpreter.SwappedIsLoaded | lib/ExecutionEngine/Interpreter/Execution.cpp:1557-1662 | and behind a compare-and-swap what it put there, or something else than it expected |
| Interpreter.Interpreter.StorePso | lib/ExecutionEngine/Interpreter/Execution.cpp:1104-1124 | buffered at its address and recorded |
| Interpreter.Interpreter.LoadPso | lib/ExecutionEngine/Interpreter/Execution.cpp:1270-1338 | the last buffered store to the address, else memory |
| Interpreter.Interpreter.DrainPso | lib/ExecutionEngine/Interpreter/Execution.cpp:1570-1573 | flushing one address until empty leaves its last store |
| Interpreter.Interpreter.MembarPso | lib/ExecutionEngine/Interpreter/Execution.cpp:1404-1440 | draining address by address, in whatever order, is the fence of the model |
| Interpreter.Interpreter.CasPso | lib/ExecutionEngine/Interpreter/Execution.cpp:1557-1662 | drains its own address only |
| Interpreter.Interpreter.FlushActionPso | lib/ExecutionEngine/Interpreter/Execution.cpp:3112-3115 | flushes the oldest store to one address, and records it for the thread that ran last |
| Interpreter.Interpreter.StepPso | lib/ExecutionEngine/Interpreter/Execution.cpp:3076-3116 | one turn of the main loop under PSO |
| Interpreter.Interpreter.RunPso | lib/ExecutionEngine/Interpreter/Execution.cpp:3036-3118 | whatever the scheduler selects, what has been executed is a run under PSO with the state and the history of the model |
| FenceConstraints.RebuiltIsReal | lib/ExecutionEngine/Interpreter/Constraints.cpp:193-227 | the rebuilt buffers are the real ones throughout a run if and only if every flush is recorded for the thread it flushes, or both buffers are empty, and every store-store fence finds an empty buffer |
| FenceConstraints.PairsAreBypasses | lib/ExecutionEngine/Interpreter/Constraints.cpp:193-227 | then the pairs are exactly the bypasses of the run |
| FenceConstraints.NothingToFence | lib/ExecutionEngine/Interpreter/Constraints.cpp:137-227 | and a run with nothing to fence is sequentially consistent |
| FenceConstraints.EmptyClauseIsRight | lib/ExecutionEngine/Interpreter/Constraints.cpp:137-191 | in terms of what `Calculate` leaves: an empty clause means a sequentially consistent run |
| FenceConstraints.SeparatedIsNoBypass | lib/ExecutionEngine/Interpreter/Constraints.cpp:65-74 | a fence between all stores and loads with the labels of a pair, and the pair is no bypass of any run |
| FenceConstraints.RebuiltIsPending | lib/ExecutionEngine/Interpreter/Constraints.cpp:193-227 | whichever threads the flushes are recorded for: what is in a rebuilt buffer was stored by its thread, with no fence and no compare-and-swap of the thread since |
| FenceConstraints.SeparatedIsNotFound | lib/ExecutionEngine/Interpreter/Constraints.cpp:193-227 | so a separated pair is found in no run |
| FenceConstraints.ClauseExcludesRun | lib/ExecutionEngine/Interpreter/Constraints.cpp:303-315 | a pair that a failed run shows, with its flushes recorded for the right thread, is a bypass of that run; separated by the solution, it is a bypass of no later run and is shown by none, whichever threads the flushes of the later run are recorded for |
| PsoConstraints.PsoRebuiltIsReal | lib/ExecutionEngine/Interpreter/Constraints.cpp:229-296 | with one buffer per thread and address: the rebuilt buffers are the real ones throughout a run if and only if every flush is recorded for the thread it flushes, or neither thread has anything buffered for the address |
| PsoConstraints.NothingFoundIsNoBypass | lib/ExecutionEngine/Interpreter/Constraints.cpp:229-296 | under that condition: a run passes nothing if and only if nothing is found and no compare-and-swap fails with a store to another address buffered |
| PsoConstraints.PsoNothingToFence | lib/ExecutionEngine/Interpreter/Constraints.cpp:229-296 | and then the run is sequentially consistent |
| PsoConstraints.PsoRebuiltIsPending | lib/ExecutionEngine/Interpreter/Constraints.cpp:229-296 | whichever threads the flushes are recorded for: what is in a rebuilt buffer was stored by its thread to that address, and the buffer has not been emptied since by a fence or a compare-and-swap there |
| PsoConstraints.PsoSeparatedIsNotFound | lib/ExecutionEngine/Interpreter/Constraints.cpp:229-296 | so a pair whose stores always leave the buffer before the second access to another address is found in no run, neither for loads nor for stores |
| ConstraintGenerator.Constraints.AddPair | lib/ExecutionEngine/Interpreter/Constraints.cpp:203-215 | the literal of a pair of a store and a load is in the clause; one literal per pair, from one counter for both maps; clauses in the solver keep their pairs |
| ConstraintGenerator.Constraints.AddStorePair | lib/ExecutionEngine/Interpreter/Constraints.cpp:264-275 | the same for a pair of two stores, in the other map |
| ConstraintGenerator.Constraints.AddPassedIn | lib/ExecutionEngine/Interpreter/Constraints.cpp:235-256 | an access under PSO adds its pairs with all stores of all buffers to other addresses |
| ConstraintGenerator.Constraints.GenerateTsoClauses | lib/ExecutionEngine/Interpreter/Constraints.cpp:195-227 | one segment under TSO: exactly the pairs of the rebuilt buffer |
| ConstraintGenerator.Constraints.GeneratePsoClauses | lib/ExecutionEngine/Interpreter/Constraints.cpp:229-296 | one segment under PSO: exactly the pairs of the rebuilt buffers, those with loads and those of two stores apart |
| ConstraintGenerator.FoundConcat | lib/ExecutionEngine/Interpreter/Constraints.cpp:163-186 | segments can be read one by one: behind a record with label 0 nothing is buffered |
| ConstraintGenerator.Constraints.CalculateThread | lib/ExecutionEngine/Interpreter/Constraints.cpp:163-186 | segment by segment, the pairs of the whole trace of a thread |
| ConstraintGenerator.Split | lib/ExecutionEngine/Interpreter/Constraints.cpp:137-152 | the order of all records becomes the order of the records of each thread |
| ConstraintGenerator.Constraints.Calculate | lib/ExecutionEngine/Interpreter/Constraints.cpp:137-191 | a new clause: the literals of exactly the pairs of all threads of the failed run, under either model |
| ConstraintGenerator.FindNextBegin | lib/ExecutionEngine/Interpreter/Constraints.cpp:35-48 | the next access |
| ConstraintGenerator.FindNextEnd | lib/ExecutionEngine/Interpreter/Constraints.cpp:50-63 | the next fence |
| ConstraintGenerator.Constraints.GetLitSingleNumber | lib/ExecutionEngine/Interpreter/Constraints.cpp:587-589 | the clause is empty if and only if the run shows no pair |
| ConstraintGenerator.Constraints.AddToSolver | lib/ExecutionEngine/Interpreter/Constraints.cpp:303-315 | the clause joins those of the solver, and stands for the pairs of its run |
| ConstraintGenerator.Constraints.Flush | lib/ExecutionEngine/Interpreter/Constraints.cpp:427-436 | everything begins anew, with no pair numbered |
| ConstraintGenerator.StillStandsFor | lib/ExecutionEngine/Interpreter/Constraints.cpp:203-215 | a clause in the solver has the literals of the same pairs after a new pair got its literal |
| ConstraintGenerator.NoLiteralsIsRight | tools/lli-synth/lli-synth.cpp:254-256 | under TSO: no literals, with flushes recorded as above, mean a sequentially consistent run |
| ConstraintGenerator.NoPsoLiteralsIsRight | tools/lli-synth/lli-synth.cpp:254-256 | under PSO too, if failed compare-and-swaps pass nothing |
| Litmus.NoOrderExplains | lib/ExecutionEngine/Interpreter/Execution.cpp:1216-1248 | two threads that each store and then miss the store of the other never do so without buffers, whatever other threads do elsewhere |
| Litmus.BuffersShow | lib/ExecutionEngine/Interpreter/Execution.cpp:1077-1248 | with buffers they do, in an order that the scheduler can choose |
| Litmus.BypassesFound | lib/ExecutionEngine/Interpreter/Constraints.cpp:200-217 | the generator accepts the records and finds both pairs |
| Litmus.OverlookedBypass | lib/ExecutionEngine/Interpreter/Execution.cpp:3106-3110 | two flushes of a thread with nothing buffered, recorded for the others: an order that the scheduler can choose, records that the generator accepts, a run that is not sequentially consistent, and nothing is found |
| Litmus.OverlookedByStoreFence | lib/ExecutionEngine/Interpreter/Execution.cpp:1404-1420 | store-store fences under TSO, which flush nothing and are recorded like the others: an order that the scheduler can choose, records that are accepted, a run that is not sequentially consistent, and nothing is found |
| Litmus.OverlookedFailure | lib/ExecutionEngine/Interpreter/Execution.cpp:1623-1648 | failed compare-and-swaps under PSO: an order that the scheduler can choose, records that are accepted, a run that is not sequentially consistent, and nothing is found |
| Litmus.OverlookedByPso | lib/ExecutionEngine/Interpreter/Execution.cpp:3112-3115 | flushes under PSO, each of a buffer that is not empty, recorded for the thread that ran last: they hide a load that passes a store; an order that the scheduler can choose, records that are accepted, a run that is not sequentially consistent, and nothing is found |
| FenceInsertion.FindPair | lib/ExecutionEngine/Interpreter/Constraints.cpp:399-408 | the search of the map: the pair of the literal, else the default pair |
| FenceInsertion.Synthesis.Merge | lib/ExecutionEngine/Interpreter/Constraints.cpp:395-418 | erases, in place, exactly the literals whose store, as the map of pairs with loads tells it, was seen before in this walk or in an earlier round |
| FenceInsertion.Synthesis.InsertFences | lib/ExecutionEngine/Interpreter/Constraints.cpp:106-135 | store-load fences go behind exactly the stores of the literals of pairs with a load that are left, store-store fences behind exactly those of the other literals |
| FenceInsertion.FencedAfterMerging | lib/ExecutionEngine/Interpreter/Constraints.cpp:395-418 | the fenced stores after a round are exactly those from before, those of all pairs with a load in the solution, and that of the first pair of two stores of all rounds |
| FenceInsertion.LoadFencesAfter | lib/ExecutionEngine/Interpreter/Constraints.cpp:395-418 | the store-load fences alone: after a round they follow exactly the stores from before and those of all pairs with a load in the solution, so merging loses none |
| FenceInsertion.SeenIsFenced | lib/ExecutionEngine/Interpreter/Constraints.cpp:395-418 | every round keeps this: what merging takes to be fenced has a store-load fence, apart from the label 0 |
| FenceInsertion.ClauseKeepsFence | lib/ExecutionEngine/Interpreter/Constraints.cpp:395-418 | a clause has a fenced store after merging if and only if one of its literals in the solution is that of a pair with a load, or shares its store with one, with the first pair of two stores, or with an earlier fence |
| FenceInsertion.MergingLosesNothing | lib/ExecutionEngine/Interpreter/Constraints.cpp:395-418 | all stores of the solution are fenced if and only if all its pairs of two stores are covered in this way |
| FenceInsertion.SecondPairIsLost | lib/ExecutionEngine/Interpreter/Constraints.cpp:395-418 | two clauses with one pair of two stores each: the second is left without a fence |
| FenceInsertion.LaterPairsAreLost | lib/ExecutionEngine/Interpreter/Constraints.cpp:395-418 | after a round with a pair of two stores, merging drops all of them in later rounds |
| FenceInsertion.Synthesis.Fix | tools/lli-synth/lli-synth.cpp:390-400 | from a solution to the fences of both kinds: every store of a pair with a load has a store-load fence, and a store of the solution has a fence if and only if it is covered; what merging takes to be fenced stays fenced |
| FenceInsertion.Synthesis.AddClauses | tools/lli-synth/lli-synth.cpp:244-257 | one clause for each failed run, which stands for the pairs that the run showed; stops if and only if a failed run showed none |
| FenceInsertion.Synthesis.Round | tools/lli-synth/lli-synth.cpp:365-400 | a whole round, with any solver: under TSO every failed run showed a pair behind whose store there is a store-load fence now; under either model the clause of a failed run keeps a fenced store if and only if one of its chosen literals is covered |
| FencedRuns.RoundExcludesFailure | lib/ExecutionEngine/Interpreter/Constraints.cpp:65-74 | under TSO: after merging and inserting, no run of the fenced program shows all pairs of a clause that the solution satisfies, whichever threads its flushes are recorded for |
| FencedRuns.FailuresAreExcluded | tools/lli-synth/lli-synth.cpp:365-409 | the same for what a whole round leaves: all its failed runs are excluded |
| FencedRuns.PsoRoundExcludesFailure | lib/ExecutionEngine/Interpreter/Constraints.cpp:65-87 | under PSO: a chosen literal that is covered excludes the failed run whose clause it is in |
| FencedRuns.KeptFenceExcludes | tools/lli-synth/lli-synth.cpp:365-409 | and so, in terms of what a whole round leaves, does a clause that keeps a fenced store |
| FencedRuns.UnfencedIsShown | lib/ExecutionEngine/Interpreter/Constraints.cpp:229-296 | pairs without a fence behind any of their stores are all shown by some accepted run under PSO of the main thread alone, which has the fences behind all other stores |
| FencedRuns.ExcludedExactly | lib/ExecutionEngine/Interpreter/Constraints.cpp:229-296 | pairs are shown together by no accepted run of the fenced program if and only if one of their stores has a fence |
| FencedRuns.PsoRoundExcludesExactly | lib/ExecutionEngine/Interpreter/Constraints.cpp:395-418 | so under PSO a round excludes a failed run if and only if one of the pairs that it showed has a store that was fenced before, or that of a chosen pair with a load, or that of the first chosen pair of two stores of all rounds |
| TraceCheck.GenInit | lib/ExecutionEngine/Interpreter/CheckTrace.cpp:31-53 | every return is paired with the open call of its thread |
| TraceCheck.OpsAreOfTrace | lib/ExecutionEngine/Interpreter/CheckTrace.cpp:31-53 | one operation for each return, in order, with the thread, function and value of the return, and the arguments of the call that is the last thing its thread did before |
| TraceCheck.OneInterleaving | lib/ExecutionEngine/Interpreter/CheckTrace.cpp:66-74 | an order of operations that keeps the order of every thread is known by its order of threads |
| TraceCheck.ShowsArrangement | lib/ExecutionEngine/Interpreter/CheckTrace.cpp:57-64 | every such order shows an arrangement of the thread numbers |
| TraceCheck.CurrPerm | lib/ExecutionEngine/Interpreter/CheckTrace.cpp:66-98 | every arrangement makes one: each operation once, each thread in order |
| TraceCheck.IsRealTimeOrderPreserved | lib/ExecutionEngine/Interpreter/CheckTrace.cpp:346-362 | true if and only if no operation comes before one that had returned before it was called |
| TraceCheck.ExplainedExactly | lib/ExecutionEngine/Interpreter/CheckTrace.cpp:396-421 | an order of positions explains a history if and only if the history has a witness: a sequence of the same operations, each once, that keeps the threads and the time and is accepted |
| TraceCheck.OneOrder | lib/ExecutionEngine/Interpreter/CheckTrace.cpp:396-421 | of operations of one thread, or that do not overlap, only the order of the trace can be a witness |
| TraceCheck.CheckHistory | lib/ExecutionEngine/Interpreter/CheckTrace.cpp:396-421 | succeeds if and only if some order keeps every thread, for linearizability also real time, and is accepted by the specification; that is, exactly if the operations could have been executed one by one; for operations of one thread, or, under linearizability, that do not overlap, exactly if they are accepted in the order of the trace |

## Left out

- BrainFPreservation.CompilationPreservesMeaning: the lexer's run counters are integers without bound; overflow of the `int` counters, which is undefined, is excluded for moves and not modelled for changes.
- BrainFCompiler.BrainF.Parse: aborting is an outcome value; printed messages, names of registers and blocks, and the stream's error states are not modelled.
- BrainFPreservation.SimTrap: `puts` is a counter; its text and its result are not modelled.
- ExceptionTables.ReadEncodedPointer: the words that indirect encodings read are a parameter; faults of such reads are not modelled.
- ExceptionTables.HandleActionValue: filters, which the code asserts away, are outside its precondition as far as the walk comes to them; a walk without a match must end.
- ExceptionUnwind.NestedFrames: the system unwinder is abstract, in two phases; its stack walking and the emission of tables by the code generator are not modelled, and catch blocks do not throw themselves.
- ExceptionFrames.FrameBuilder.CreateCatchWrappedInvokeFunction: printing is one instruction, and the selector intrinsics are part of the landing pad's terminators.
- Barrier.EveryoneReturns: `size_t` does not wrap around, and each caller calls once; fairness is not needed because every interleaving is finite.
- UseList.Use.Set: the tag bits in the back pointers, from which a Use finds its user, are not modelled.
- UseList.User.DropAllReferences: `replaceAllUsesWith`, `Use::swap`, `zap` and resizing of operand lists are only declared in the headers and not part of this model.
- AliasAnalysis.ModRefCoversEffects: queries between two calls and the table of intrinsics are not modelled; a behaviour with accesses to arguments and globals says nothing about memory.
- AliasEvaluator.Evaluate: the answers of the analysis and the sizes of types are parameters; printing of single answers is not modelled.
- Interpreter.Interpreter.LoadTso: values have one type and addresses are atoms; partial overlap of accesses, memory copies, the stack, segment faults and virtual addresses are not modelled.
- FenceConstraints.NothingToFence: the selection of shared accesses and the solver are not modelled; a solution is a parameter.
- FenceInsertion.Synthesis.Round: the runs between two rounds are a parameter, and the program is not: what is fenced is the set of stores with a fence, and a run of the fenced program is any run with fences behind them. The fields of one class are spread over `Constraints` and `Synthesis`.
- FenceInsertion.Synthesis.Merge: the union of several smallest solutions is not modelled; only one solution is computed. Fences behind instructions that are not found, for literals of no pair, are not modelled.
- That the fences of the rounds suffice for all runs is not promised: the synthesis ends when no further run fails.
- Interpreter.Interpreter.RunTso: the schedule lists the instructions with their operands; which instruction a thread executes next, and that only active threads are selected, is not modelled.
- TraceCheck.CheckHistory: the arrangements come from std::next_permutation and are a parameter, and so are the sequential specifications of queues, sets and allocators; calls that have not returned are left out, as in the code.
- The scheduler's random choices are the quantifier over runs; thread creation, joining and the interpretation of other instructions are not modelled.
- The checks of single data structures, among them the allocator's test of block ends only, would add easy members.
- The pass manager, the linker, drivers, command lines, C bindings and the example programs Fibonacci, HowToUseJIT and ModuleMaker hold no logic of this kind.
