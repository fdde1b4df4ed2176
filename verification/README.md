# Verified models of LLVM's example compilers, exception runtime, barrier and IR instructions

These Dafny modules model parts of LLVM whose correctness depends on several functions working together, and prove
what the pieces are for.

- **The BrainF compiler** (`Brainf*.dfy`). The source language has an interpreter on characters that follows the table
  at the head of `BrainF.cpp`; the emitted blocks have a step semantics. The emitted function is shown to end, diverge
  and write exactly as its source does, with and without the bounds check; the check fires exactly when an executed
  maximal run of moves leaves the head off the tape; and the emitted blocks are in SSA form, by a certificate that the
  generator maintains while loops are half built. `BrainfCompiler.BrainF` is the compiler as it runs, one pass over the
  characters with recursive calls of `Readloop` that mutate blocks and phis in place, proved against lexer, parser and
  generator.
- **The exception demonstration** (`Leb128`, `EncodedPointers`, `Lsda`, `ExceptionTables`, `CatchFunctions`,
  `Unwinding`). The byte decoders and the personality routine are methods over byte sequences; the JIT's emitter of
  exception tables is modelled beside them, from labels in the code to bytes, and what the routine reads from an emitted
  table is what went in. The generated catch functions are blocks that a builder makes and a machine runs, on a stack of
  any depth, under the two-phase unwinding of section 1.3 of the Itanium C++ ABI for exception handling; the unwinder
  acts on what the bytes of the tables say.
- **The thread barrier** (`Barrier.dfy`): a protocol of interleaved steps for any number of threads, with safety for
  all callers, liveness over any number of rounds, and exactly which release counts make every interleaving return.
- **In-memory IR** (`SwitchInst`, `PhiNode`, `PackedFields`): operand arrays against case lists and incoming lists, and
  fields packed into one word over whole histories of setter calls.

`Wrappers` and `Bytes` hold the option type, bytes, memory and powers of two.

How the model is read. Pointers into BrainF's tape are offsets from its start. Runs of the interpreter are given fuel,
which counts loop iterations; statements are for all fuel. `Rests` lists the states after each executed maximal run of
moves, with comments inside a run ignored. Undefined C behaviour in the decoders (shifts of an `int` past bit 31)
is a value of its own, `Undefined`. In the barrier a sleeping thread wakes only by a broadcast, and there is one
releasing thread, as in `main`.

Findings.

- With an empty tape the bounds check does not protect an access before the first run of moves, because the check comes
  after moves only (`CheckProtectsText`); it protects all programs exactly when the tape has a cell
  (`CheckProtectsExactly`).
- Over any number of rounds, every interleaving returns everybody exactly when every `releaseThreads(num)` asks for the
  number of threads (`ExactRelease`); the comment at examples/ParallelJIT/ParallelJIT.cpp:175-177 does not mention the
  threads that arrive later, which then wait for ever.
- The decoders return the encoded value exactly below 2^31, and for signed values from -2^27 on.
- A switch's operand array triples its size in 32 bits, which makes too little room from 0x55555556 operands to 2^31,
  and again above 0xAAAAAAAA (`GrowthFailsExactly`).
- The setters of packed fields do not mask their argument; a value that does not fit is never read back
  (`RangeIsExact`).

## Model

| member | source | states |
|---|---|---|
| BrainfLexer.LexerFidelity | examples/BrainF/BrainF.cpp:311-414 | a symbol list is the lexer's output if and only if the command characters split into consecutive segments, one per symbol, each a single command or a maximal run with that net count: nothing is dropped, duplicated or reordered |
| BrainfLexer.LexIgnoresComments | examples/BrainF/BrainF.cpp:409-411 | other characters change nothing |
| BrainfLexer.CommandSymbols | examples/BrainF/BrainF.cpp:330-407 | the eight command characters and the symbol of each; every other character has none |
| BrainfLexer.GroupsDetermineLex | examples/BrainF/BrainF.cpp:330-371 | the grouping into maximal runs is unique |
| BrainfSyntax.ParseUnparse | examples/BrainF/BrainF.cpp:283-303 | parsing the printed form of any program gives it back, at the end of input or before a `]` |
| BrainfSyntax.UnparseParse | examples/BrainF/BrainF.cpp:417-466 | an activation's program, printed, and what it left over are the symbols it was given |
| BrainfSyntax.Acceptance | examples/BrainF/BrainF.cpp:417-466 | "Extra ]" exactly when some prefix closes more than it opens, "Missing ]" exactly when none does and the text ends inside a loop, acceptance exactly for balanced texts |
| BrainfMeaning.CommandTable | examples/BrainF/BrainF.cpp:12-20 | the effect of each character other than a bracket on tape, head, input and output, as the table gives it, 255 at the end of input, and no effect of any other |
| BrainfMeaning.InitialIsBlank | examples/BrainF/BrainF.cpp:91-115 | a run starts with a tape of zeros and the head in the middle |
| BrainfMeaning.CloseAtBalances | examples/BrainF/BrainF.cpp:21-22 | the character interpreter's loop body ends at the matching bracket |
| BrainfMeaning.TextMeansProgram | examples/BrainF/BrainF.cpp:12-22 | executing the characters and executing the parsed program give the same outcome, with and without the check |
| BrainfCodegen.EmitPrim | examples/BrainF/BrainF.cpp:201-281 | a command only extends the block being built and adds new blocks |
| BrainfCodegen.OpenLoop | examples/BrainF/BrainF.cpp:283-299 | the start of a loop only extends the block being built and adds new blocks |
| BrainfCodegen.Generate | examples/BrainF/BrainF.cpp:194-415 | a whole program only extends the block being built and adds new blocks: blocks of enclosing loops stay as they are, their half-built phis included |
| BrainfSimulation.ReadRuns | examples/BrainF/BrainF.cpp:201-215 | the emitted read does to tape, input and output what `,` means, or traps as it does |
| BrainfSimulation.WriteRuns | examples/BrainF/BrainF.cpp:217-235 | the same for `.` |
| BrainfSimulation.ChangeRuns | examples/BrainF/BrainF.cpp:269-281 | the same for a net change, modulo 256 |
| BrainfSimulation.MoveSimulates | examples/BrainF/BrainF.cpp:237-267 | the same for a net move; with the check it goes to the error block exactly when the head is off the tape |
| BrainfSimulation.LoopSimulates | examples/BrainF/BrainF.cpp:423-455 | from the test block, through the phi, any number of rounds of the emitted loop do what the source loop does |
| BrainfSimulation.WhileSimulates | examples/BrainF/BrainF.cpp:283-303 | the same from the jump into the loop |
| BrainfSimulation.Simulates | examples/BrainF/BrainF.cpp:184-467 | the code of any program does what the program interpreter does, in at least as many steps as fuel was spent |
| BrainfBounds.CheckedTextIsSafe | examples/BrainF/BrainF.cpp:244-266 | with the check no access of the source is outside the tape, and the head is on the tape at the end |
| BrainfBounds.CheckIsExact | examples/BrainF/BrainF.cpp:237-267 | the checked run is the unchecked run if the head is on the tape after every executed maximal run of moves; otherwise it stops with the error in exactly the state, head, tape, unread input and output, that the unchecked run has after the first such run that leaves the tape |
| BrainfTheorems.HeaderRuns | examples/BrainF/BrainF.cpp:80-117 | after the header every cell of the allocation is 0, the head points to its middle, and nothing has been read or written |
| BrainfTheorems.EndRuns | examples/BrainF/BrainF.cpp:121-128 | a branch to the end block releases the tape and returns |
| BrainfTheorems.ErrorRuns | examples/BrainF/BrainF.cpp:153-180 | the error block writes its line once and ends the function |
| BrainfTheorems.CompiledRuns | examples/BrainF/BrainF.cpp:40-50 | for every amount of fuel the compiled function reaches the tape, input and output of the source, or its end |
| BrainfTheorems.EndsAlike | examples/BrainF/BrainF.cpp:184-467 | the compiled function ends in a configuration if and only if the source ends in the corresponding way: same tape, unread input and output, error line, or invalid access; it never reads an unwritten register |
| BrainfTheorems.DivergesAlike | examples/BrainF/BrainF.cpp:184-467 | one runs for ever if and only if the other does |
| BrainfTheorems.WritesAlike | examples/BrainF/BrainF.cpp:184-467 | whether or not they end, each has written what the other will have written |
| BrainfTheorems.CheckedNeverTraps | examples/BrainF/BrainF.cpp:106-115 | with the check and a tape of at least one cell, no load or store of any run is outside the allocation |
| BrainfTheorems.EmptyTapeTraps | examples/BrainF/BrainF.cpp:217-220 | with an empty tape the program `.` makes an invalid access although it is checked |
| BrainfTheorems.CheckProtectsExactly | examples/BrainF/BrainF.cpp:244-266 | the check makes all programs safe if and only if the tape has a cell |
| BrainfTheorems.CheckProtectsText | examples/BrainF/BrainF.cpp:217-266 | for each accepted text, the check makes all its runs safe if and only if the tape has a cell or no command comes before the first run of moves |
| BrainfTheorems.ErrorIsExact | examples/BrainF/BrainF.cpp:237-267 | the checked function reports the error if and only if the source, unchecked, at some time leaves the head off the tape after an executed maximal run of moves |
| BrainfTheorems.CheckStopsThere | examples/BrainF/BrainF.cpp:153-180 | on such a run the checked function ends in one way only: with the tape, unread input and output of the source where it first leaves the tape, and the error line |
| BrainfTheorems.CheckChangesNothingElse | examples/BrainF/BrainF.cpp:244-266 | on all other runs the functions compiled with and without the check end in the same configurations |
| BrainfTheorems.CheckChangesNoOutput | examples/BrainF/BrainF.cpp:244-266 | and what one has written at some step the other has written at some step, and one runs for ever if and only if the other does |
| BrainfSsa.OpenGood | examples/BrainF/BrainF.cpp:283-299 | at `[` the certificate is kept, with the new loop's phi half built and its test block unterminated |
| BrainfSsa.CloseGood | examples/BrainF/BrainF.cpp:423-455 | at `]` it is kept, with the phi complete and the test block terminated |
| BrainfSsa.GenerateGood | examples/BrainF/BrainF.cpp:194-415 | it is kept over any program, the open blocks of enclosing loops included |
| BrainfSsa.HeaderGood | examples/BrainF/BrainF.cpp:80-181 | it holds after the header |
| BrainfSsa.EntryOnPath | examples/BrainF/BrainF.cpp:432-454 | what the certificate promises at a block is defined on every path to it |
| BrainfSsa.EmitsSsa | examples/BrainF/BrainF.cpp:40-50 | in every compiled function each block ends with its only terminator, phis come first and have exactly one value per predecessor, each name is defined once, every use and every phi value on its edge is dominated by its definition on all paths, and nothing branches to the entry block |
| BrainfCompiler.BuildLoop | examples/BrainF/BrainF.cpp:301-302 | what the recursive call builds, up to the matching bracket, completes the loop |
| BrainfCompiler.BrainF.AddIncoming | include/llvm/Instructions.h:2087-2098 | the phi at the start of a block takes the new value from the new block if it had none for it, and from every other block what it took before; no other block changes |
| BrainfCompiler.BrainF.EmitHeader | examples/BrainF/BrainF.cpp:52-182 | the blocks, head and names after the header |
| BrainfCompiler.BrainF.EmitRead | examples/BrainF/BrainF.cpp:201-215 | the state after `,` is the generator's |
| BrainfCompiler.BrainF.EmitWrite | examples/BrainF/BrainF.cpp:217-235 | the same for `.` |
| BrainfCompiler.BrainF.EmitMove | examples/BrainF/BrainF.cpp:237-267 | the same for a run of moves, with the check if it is on |
| BrainfCompiler.BrainF.EmitTest | examples/BrainF/BrainF.cpp:244-266 | the three tests, the branch to the error block and the block where building goes on are the generator's |
| BrainfCompiler.BrainF.EmitChange | examples/BrainF/BrainF.cpp:269-281 | the same for a run of changes |
| BrainfCompiler.BrainF.BeginLoop | examples/BrainF/BrainF.cpp:283-299 | the same for the first half of `[`, whose phi lacks its second value |
| BrainfCompiler.BrainF.EndLoop | examples/BrainF/BrainF.cpp:423-455 | the same for `]` |
| BrainfCompiler.BrainF.ReadSymbol | examples/BrainF/BrainF.cpp:311-414 | reading on leaves the symbol list unchanged when the symbols in hand are put back; a complete current symbol has a symbol in hand behind it only if it is a run, and one of another kind |
| BrainfCompiler.BrainF.Readloop | examples/BrainF/BrainF.cpp:184-467 | one activation terminates and builds exactly what parser and generator specify for the rest of its loop or program, leaves exactly the symbols after its `]`, or reports the right error |
| BrainfCompiler.BrainF.CompileSymbol | examples/BrainF/BrainF.cpp:195-309 | writing out one complete symbol builds what parser and generator specify for it, the symbols behind it untouched, and keeps the enclosing loop's half-built phi |
| BrainfCompiler.BrainF.CompileLoop | examples/BrainF/BrainF.cpp:283-303 | the same for a whole loop |
| BrainfCompiler.BrainF.Parse | examples/BrainF/BrainF.cpp:40-50 | for every text: the compiled function of the accepted program, or the right one of the two errors |
| Barrier.BarrierSafety | examples/ParallelJIT/ParallelJIT.cpp:149-214 | in every reachable state, for any threads, calls and release counts: mutual exclusion; while the mutex is free `n` is the number of threads asleep in `block` and below a set `waitFor`; `waitFor` is set exactly while the releaser sleeps; the assertion of `block` holds |
| Barrier.NoDeadlock | examples/ParallelJIT/ParallelJIT.cpp:149-196 | in rounds, if nobody can move everybody has returned |
| Barrier.BarrierLiveness | examples/ParallelJIT/ParallelJIT.cpp:149-214 | for any number of threads and rounds, every run is bounded, can be continued to the return of all calls, and stops only there |
| Barrier.NobodyOvertakes | examples/ParallelJIT/ParallelJIT.cpp:153-168 | no thread, nor the releaser, gets past the barrier of a round before every thread has counted itself in |
| Barrier.RunBounded | examples/ParallelJIT/ParallelJIT.cpp:149-196 | each step uses up one unit of a measure, so no run is infinite |
| Barrier.OneRound | examples/ParallelJIT/ParallelJIT.cpp:149-196 | a round in which all threads are asked for can be run back to a fresh state |
| Barrier.PlusRun | examples/ParallelJIT/ParallelJIT.cpp:149-196 | calls still to come do not disturb those being made |
| Barrier.WrongReleaseDooms | examples/ParallelJIT/ParallelJIT.cpp:183-191 | if any release of several rounds asks for another number than there are threads, some interleaving leaves somebody waiting for ever |
| Barrier.ExactRelease | examples/ParallelJIT/ParallelJIT.cpp:178-196 | over any number of rounds, all interleavings return everybody if and only if every release asks for exactly the number of threads |
| Barrier.WaitForThreads.BlockSection | examples/ParallelJIT/ParallelJIT.cpp:149-169 | from any safe state the part of `block` under the mutex is two steps of the protocol, and its assertion holds |
| Barrier.WaitForThreads.ReleaseSection | examples/ParallelJIT/ParallelJIT.cpp:178-191 | the part of `releaseThreads` under the mutex is one step of the protocol |
| Barrier.WaitForThreads.UnblockThreads | examples/ParallelJIT/ParallelJIT.cpp:200-214 | both counters are reset and every sleeper, the releaser too, is woken |
| Leb128.UnsignedRoundTrip | examples/ExceptionDemo/ExceptionDemo.cpp:375-391 | whatever follows it, the minimal encoding of a value below 2^31 decodes to the value and its length; from 2^31 on decoding is undefined |
| Leb128.SignedRoundTrip | examples/ExceptionDemo/ExceptionDemo.cpp:399-419 | the same for signed values, defined exactly from -2^27 to below 2^31 |
| Leb128.UnsignedExamples | examples/ExceptionDemo/ExceptionDemo.cpp:375-391 | the examples of DWARF 3 decode as listed there |
| Leb128.SignedExamples | examples/ExceptionDemo/ExceptionDemo.cpp:399-419 | the same for the signed ones |
| Leb128.ReadULEB128 | examples/ExceptionDemo/ExceptionDemo.cpp:375-391 | the loop computes the decoded value and the advanced pointer |
| Leb128.ReadSLEB128 | examples/ExceptionDemo/ExceptionDemo.cpp:399-419 | the same with the sign extension |
| EncodedPointers.PointerRoundTrip | examples/ExceptionDemo/ExceptionDemo.cpp:428-504 | in every supported format, absolute or pc-relative, what was written is read back and the pointer goes on right after it |
| EncodedPointers.RoundTripIsExact | examples/ExceptionDemo/ExceptionDemo.cpp:436-476 | in every supported format exactly the values that fit are read back |
| EncodedPointers.FixedFormats | examples/ExceptionDemo/ExceptionDemo.cpp:437-471 | each fixed-size format, by its number: how many bytes it takes and what value they make, sign extension included |
| EncodedPointers.OtherFormats | examples/ExceptionDemo/ExceptionDemo.cpp:432-498 | omission, the variable-length formats, pc-relative and indirect ones, by their numbers |
| EncodedPointers.IndirectRoundTrip | examples/ExceptionDemo/ExceptionDemo.cpp:496-503 | with the indirection bit, the word where the pointer leads is read, and the pointer still goes on right after its own bytes |
| EncodedPointers.AbortsExactly | examples/ExceptionDemo/ExceptionDemo.cpp:432-494 | the routine aborts exactly on the unsupported formats and offsets whose value it may read, and yields a value for supported ones only |
| EncodedPointers.ReadEncodedPointer | examples/ExceptionDemo/ExceptionDemo.cpp:428-504 | every encoding byte: omission, value, relative offset, indirection, and abort for what is not supported |
| Lsda.HandleActionValue | examples/ExceptionDemo/ExceptionDemo.cpp:525-598 | wherever the walk ends and meets no filter, it returns the 1-based position of the first record whose type matches, and false if there is none or the exception is foreign; nothing is asked of records that are not visited |
| Lsda.FirstMatchIsFirst | examples/ExceptionDemo/ExceptionDemo.cpp:575-585 | that position holds the type and no earlier one does |
| Lsda.VisitsUnique | examples/ExceptionDemo/ExceptionDemo.cpp:555-595 | memory decides which clauses are visited |
| Lsda.ChainVisits | examples/ExceptionDemo/ExceptionDemo.cpp:573-594 | on a whole acyclic chain the walk visits the records up to the first that matches |
| Lsda.CoveringIsFirst | examples/ExceptionDemo/ExceptionDemo.cpp:690-711 | the entry searched for is the first with a landing pad whose range, from its start up to but not including its end, contains the call, and there is none exactly if no entry is like that |
| Lsda.ReadHeader | examples/ExceptionDemo/ExceptionDemo.cpp:641-668 | the header's type-info base, call-site format and table bounds |
| Lsda.HeaderBytes | examples/ExceptionDemo/ExceptionDemo.cpp:641-668 | the header of an emitted table, byte by byte |
| Lsda.HeaderWithoutTypes | examples/ExceptionDemo/ExceptionDemo.cpp:651-657 | a header without type infos has no offset to them |
| Lsda.HeaderWithStart | examples/ExceptionDemo/ExceptionDemo.cpp:644-646 | a start address is passed over |
| Lsda.SiteInBytes | examples/ExceptionDemo/ExceptionDemo.cpp:673-681 | an entry of the call-site table, byte by byte |
| Lsda.GenClass | examples/ExceptionDemo/ExceptionDemo.cpp:841-851 | the class of an exception is its characters, the first the highest |
| Lsda.OurClassCharacters | examples/ExceptionDemo/ExceptionDemo.cpp:176-177 | the class of our exceptions has the eight characters given |
| Lsda.ScanSites | examples/ExceptionDemo/ExceptionDemo.cpp:672-781 | the scan terminates and acts at the first entry with a landing pad whose range contains the call, where the cleanup phase enters that pad; if there is none it leaves the context alone and the unwinder goes on; nothing is asked of entries behind it |
| Lsda.TableScans | examples/ExceptionDemo/ExceptionDemo.cpp:672-711 | on a whole table the scan reads the entries in order up to the one it acts on |
| Lsda.DescribesUnique | examples/ExceptionDemo/ExceptionDemo.cpp:641-711 | the bytes decide which entries and clauses are read |
| Lsda.AtPad | examples/ExceptionDemo/ExceptionDemo.cpp:683-779 | at a covering entry: a handler is reported in the search phase, and the context installed in the other, with selector 0 for a cleanup or a foreign exception |
| Lsda.HandleLsda | examples/ExceptionDemo/ExceptionDemo.cpp:612-784 | the same for the call one byte before the return address, and the registers it installs: the exception, and the position of the matching clause or 0 |
| Lsda.TwoPhases | examples/ExceptionDemo/ExceptionDemo.cpp:620-777 | with or without a table, the search finds a handler if and only if the cleanup installs a positive selector; a covering pad without a match gets selector 0; a foreign exception never has a handler; where no pad covers the call the unwinder goes on in both phases |
| ExceptionTables.ActionsChain | lib/ExecutionEngine/JIT/JITDwarfEmitter.cpp:268-286 | the emitted action records decode to the clauses in their order, then the cleanup, from the first action that the call sites name |
| ExceptionTables.SitesDecode | lib/ExecutionEngine/JIT/JITDwarfEmitter.cpp:406-440 | the emitted call-site table decodes to its entries |
| ExceptionTables.TypesDecode | lib/ExecutionEngine/JIT/JITDwarfEmitter.cpp:452-468 | type id k finds the k-th type info, counted back from the end of the table |
| ExceptionTables.TableRoundTrip | lib/ExecutionEngine/JIT/JITDwarfEmitter.cpp:388-480 | an emitted table decodes to exactly its call sites, and from the action that they name to the clauses of the pad in order |
| ExceptionTables.TableDescribes | lib/ExecutionEngine/JIT/JITDwarfEmitter.cpp:388-480 | for any call and exception, the personality routine reads from it the sites up to the covering one and the clauses up to the matching one |
| ExceptionTables.TriesAreCovered | lib/ExecutionEngine/JIT/JITDwarfEmitter.cpp:295-372 | from any code with labels, every address in a try range is covered by an emitted entry that contains it and leads to exactly that range's landing pad with its action, gaps and merged ranges included |
| ExceptionTables.OutsideIsUncovered | lib/ExecutionEngine/JIT/JITDwarfEmitter.cpp:337-372 | around a call outside every try range, before the first, between two or after the last, no entry with a landing pad covers |
| ExceptionTables.OneTryLayout | lib/ExecutionEngine/JIT/JITDwarfEmitter.cpp:309-372 | for a function with one range: exactly an entry for it, and one without a pad for what may throw before it and for what may throw after it |
| ExceptionTables.OneTrySites | lib/ExecutionEngine/JIT/JITDwarfEmitter.cpp:406-440 | the numbers emitted for these entries |
| ExceptionTables.TwoTriesLayout | lib/ExecutionEngine/JIT/JITDwarfEmitter.cpp:337-372 | two ranges are merged exactly if nothing between them may throw and they have the same pad and action |
| ExceptionTables.CallSitesFit | lib/ExecutionEngine/JIT/JITDwarfEmitter.cpp:341-371 | the emitted call sites lead to the pad with its action, or nowhere |
| ExceptionTables.SelectorIsFirstClause | lib/CodeGen/SelectionDAG/FunctionLoweringInfo.cpp:462-483 | the selector is the position of the first clause for the thrown type |
| CatchFunctions.FunctionBuilder.CreateFinallyBlock | examples/ExceptionDemo/ExceptionDemo.cpp:969-1029 | the three variables get their initial values in the entry block, and the finally block switches on the flag |
| CatchFunctions.FunctionBuilder.CreateCatchBlock | examples/ExceptionDemo/ExceptionDemo.cpp:1044-1074 | a catch block marks the exception caught and goes to the finally block |
| CatchFunctions.FunctionBuilder.CreateCatchWrappedInvokeFunction | examples/ExceptionDemo/ExceptionDemo.cpp:1096-1346 | the blocks of the whole function for any number of types |
| Unwinding.ReadOneWay | examples/ExceptionDemo/ExceptionDemo.cpp:612-784 | the answer and selector that the unwinding uses are those of the one way to read the bytes |
| Unwinding.OurPersonality | examples/ExceptionDemo/ExceptionDemo.cpp:798-831 | on any readable bytes the routine as it runs gives that answer, selector and landing address |
| Unwinding.EmittedSelects | examples/ExceptionDemo/ExceptionDemo.cpp:1329-1340 | at the invoke of a function with an emitted table the call is covered, the address installed is that of the invoke's landing pad, and the selector is the first matching clause, or 0 if the function does not handle the exception |
| Unwinding.EmittedResumes | examples/ExceptionDemo/ExceptionDemo.cpp:1231-1233 | at the call that resumes, the routine tells the unwinder to go on |
| Unwinding.EmittedAnswers | examples/ExceptionDemo/ExceptionDemo.cpp:726-777 | so at the invoke the search phase finds a handler exactly where the function handles the exception, and the other phase sends control to the exception block |
| Unwinding.EmittedExists | lib/ExecutionEngine/JIT/JITDwarfEmitter.cpp:197-480 | there are functions with emitted tables for any catch list that is not too large |
| Unwinding.SearchFindsInnermost | examples/ExceptionDemo/ExceptionDemo.cpp:761-767 | the search phase stops at the innermost function that handles the exception |
| Unwinding.NormalExit | examples/ExceptionDemo/ExceptionDemo.cpp:1202-1227 | a normal return runs the finally block once, releases nothing and returns to the caller |
| Unwinding.Caught | examples/ExceptionDemo/ExceptionDemo.cpp:1261-1340 | a landing with a positive selector runs that clause's catch block, the finally block once and the end block, and releases the exception |
| Unwinding.PassedOn | examples/ExceptionDemo/ExceptionDemo.cpp:1231-1293 | a landing with selector 0, or a foreign exception, runs the finally block once, releases nothing and resumes the same exception, which does not enter the same landing pad again |
| Unwinding.Throwing | examples/ExceptionDemo/ExceptionDemo.cpp:1097-1346 | over a stack of any depth the second phase has the trace of innermost handlers |
| Unwinding.TwoPhaseUnwinding | examples/ExceptionDemo/ExceptionDemo.cpp:612-784 | for every stack of functions with emitted tables, catch lists and thrown exception, the unwinder acting on what the bytes say for the call each activation is in, and the landing block entered only at its own address: every run ends, with control at the innermost handler, by its first clause for the type, or at the harness when there is none or the exception is foreign |
| Unwinding.FinallyOnceAndOwnership | examples/ExceptionDemo/ExceptionDemo.cpp:1200-1340 | however it ends, each activation has run its finally block exactly once; a generated exception is released exactly once if a generated function caught it and not otherwise; a foreign one never |
| Unwinding.DemoStack | examples/ExceptionDemo/ExceptionDemo.cpp:1482-1534 | in the demonstration types 1 to 6 are caught, odd ones by the outer and even ones by the inner function; all else passes to the harness |
| SwitchInst.Switch.FindCaseValue | include/llvm/Instructions.h:2655-2666 | the iterator is at the first case with the value, or the default, and its successor is where the switch goes |
| SwitchInst.Switch.FindCaseDest | include/llvm/Instructions.h:2670-2681 | the result is a value if and only if the block is not the default and exactly one case leads to it, and then it is that case's |
| SwitchInst.Switch.CaseSuccessor | include/llvm/Instructions.h:2509-2524 | the successor at an iterator is the case's destination, or the default |
| SwitchInst.SuccessorsAndCases | include/llvm/Instructions.h:2494-2524 | the conversions between successor indices and case iterators are inverse on all of them |
| SwitchInst.Switch.AddCase | lib/VMCore/Instructions.cpp:3171-3182 | the case is added at the end, the array growing when it must and its growth makes room |
| SwitchInst.Switch.GrowOperands | lib/VMCore/Instructions.cpp:3209-3221 | a fresh array of the size computed in 32 bits, with the same operands |
| SwitchInst.GrowthFailsExactly | lib/VMCore/Instructions.cpp:3209-3221 | growing makes room for another case exactly if the tripled count does not wrap, or wraps to enough |
| SwitchInst.Switch.RemoveCase | lib/VMCore/Instructions.cpp:3186-3204 | the last case takes the place of the removed one |
| SwitchInst.AddedGoes | lib/VMCore/Instructions.cpp:3171-3182 | a new case changes where its own value goes, if that had none, and nothing else |
| SwitchInst.RemovedGoes | lib/VMCore/Instructions.cpp:3186-3204 | removal sends the removed value to the default and changes nothing for others, for all values that do not have two cases |
| SwitchInst.RemovedDistinct | lib/VMCore/Instructions.cpp:3186-3204 | no second case for a value arises |
| SwitchInst.RemovedCases | lib/VMCore/Instructions.cpp:3194-3203 | exactly the one case is lost, whatever the order becomes |
| PhiNode.PHINode.AddIncoming | include/llvm/Instructions.h:2087-2098 | the pair is added at the end of the incoming list |
| PhiNode.PHINode.GrowOperands | lib/VMCore/Instructions.cpp:141-156 | fresh arrays with room for one more and the same incoming list |
| PhiNode.PHINode.RemoveIncomingValue | lib/VMCore/Instructions.cpp:113-135 | the pair is removed, those before it stay where they are and those behind it move down by one; a phi left empty is taken out of its block exactly if that is asked for |
| PhiNode.PhiValueRemoved | lib/VMCore/Instructions.cpp:119-126 | what the phi takes from every other block is unchanged, and from the removed pair's block nothing if it had no other |
| PhiNode.PHINode.GetBasicBlockIndex | include/llvm/Instructions.h:2119-2124 | the first place of a block, or -1 |
| PhiNode.PHINode.GetIncomingValueForBlock | include/llvm/Instructions.h:2126-2130 | the value that the machine's phi takes when control comes from the block |
| PhiNode.PhiValueAdded | include/llvm/Instructions.h:2087-2098 | a value added for a block that has none is the one taken from there, and others are unchanged |
| PackedFields.SetGet | include/llvm/Instructions.h:170-216 | on a load, store, cmpxchg, atomicrmw, fence or call a setter with a value in range changes its own getter's result and no other, nor the metadata bit, and passes the assertion on the data |
| PackedFields.RangeIsExact | include/llvm/Instructions.h:486-504 | a value is read back if and only if it fits the field |
| PackedFields.GettersReturnLastSet | include/llvm/Instructions.h:606-657 | after any sequence of setter calls in range each getter returns the last value set for its field |
| PackedFields.AlignmentRoundTrip | lib/VMCore/Instructions.cpp:1037-1044 | the stored logarithm gives the alignment back if and only if it is 0 or a power of two |
| PackedFields.Instruction.SetInstructionSubclassData | include/llvm/Instruction.h:346-349 | the class's data is what was given, and the metadata bit is as before |
| PackedFields.Instruction.SetHasMetadataHashEntry | include/llvm/Instruction.h:334-337 | the metadata bit alone changes |
| PackedFields.Instruction.SetField | include/llvm/Instructions.h:403-424 | one field alone changes, to the value |
| PackedFields.Instruction.SetVolatile | include/llvm/Instructions.h:170-177 | the volatile bit alone changes |
| PackedFields.Instruction.SetAlignment | lib/VMCore/Instructions.cpp:1037-1044 | the alignment alone changes, to the value |
| PackedFields.Instruction.SetAtomic | include/llvm/Instructions.h:212-216 | ordering and scope alone change, to the values |
| PackedFields.Instruction.SetOperation | include/llvm/Instructions.h:610-614 | an atomicrmw's operation alone changes |
| PackedFields.Instruction.SetTailCall | include/llvm/Instructions.h:1227-1230 | a call's tail flag alone changes |
| PackedFields.Instruction.SetCallingConv | include/llvm/Instructions.h:1249-1252 | a call's convention alone changes |

## Left out

- BrainfTheorems.EndsAlike: pointer arithmetic does not wrap and the allocation succeeds; `mem` is not negative, and it is small enough that no offset overflows 32 bits.
- BrainfCompiler.BrainF.ReadSymbol: run counts are unbounded integers; the source's `int` overflows from 2^31 on. Cell changes are taken modulo 256 as the source does.
- BrainfCompiler.BrainF.Readloop: an aborting compilation is a returned status, handed on by every caller.
- BrainfSsa.EmitsSsa: types of operands are not checked, only definitions, uses, phis and control flow.
- Barrier.BarrierLiveness: no spurious wakeups, and one releasing thread. The source waits on the condition variable without a loop, so its promise needs both.
- Barrier.WaitForThreads.BlockSection: locking, waiting and broadcasting are steps of the protocol, not of the class.
- Leb128.ReadULEB128: values whose decoding shifts past bit 31 of an `int` are excluded, as the code promises nothing there.
- Lsda.HandleActionValue: walks that meet a filter or never end are excluded; the source asserts against the former and loops for ever on the latter.
- Lsda.HandleLsda: what is read has to be readable, and the exception object is an identity, a class and a type, not bytes at a negative offset.
- ExceptionTables.ActionsChain: one landing pad, as in the generated functions, so no actions shared between pads; no filters.
- ExceptionTables.TableRoundTrip: one landing pad, no filters, 64-bit pointers, no alignment padding.
- ExceptionTables.TriesAreCovered: the landing pad is not at the very start of the function, the ranges do not overlap, and the function is smaller than 2^32.
- Unwinding.TwoPhaseUnwinding: the unwinder and the harness are modelled from the ABI; forced unwinding is not. Calls of a generated function other than its invoke and its resumption (printing, releasing) do not throw.
- Unwinding.FinallyOnceAndOwnership: what the harness does with an exception it caught is not modelled.
- Unwinding.DemoStack: the throw function is its outcome, a foreign exception for -1 and one of ours otherwise.
- PhiNode.PHINode.GrowOperands: the number of values times 3/2 does not wrap in 32 bits.
- PhiNode.PHINode.RemoveIncomingValue: replacing the uses of a deleted phi is not modelled.
- PackedFields.SetGet: `getAlignment` for a stored 31 shifts into the sign bit and is excluded by the largest alignment.
- SwitchInst.Switch.AddCase: case values are not null and there are fewer than 2^31 cases, as the source takes for granted; use lists, and the destruction of old operands, are not modelled.
- Printing, command lines, files, JIT execution, bitcode writing and the Fibonacci builders are not modelled.
- Attribute, inline-assembly and pass-list classes would only add easy facts.
