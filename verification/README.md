# Verified model of the RISC-V verification flow's test generator and trace checker

The repository builds random RISC-V test programs in Python (riscv-dv's `pygen`), runs them on an
instruction-set simulator and on the core, and compares the two traces. This project models the
decision-making parts of that flow in Dafny and proves what they promise. There are four parts.

1. **Control flow of generated programs** (`Asm`, `InstrStream`, `JalChain`, `Mixing`, `Labels`,
   `ControlFlow`, `InstrSequence`, `EmittedLines`, `MainProgram`). Instruction objects are class
   instances that the insertion, numbering and branch-assignment methods update in place; every method
   is proved against functions on the lists of their contents. `Asm` gives the text GNU as semantics:
   `Nf` is the nearest later definition of N, `Nb` the nearest one that is not later. The main results are
   `ControlFlow.EveryRunLeaves` and, over the whole making of a main program,
   `MainProgram.GenMainProgram`.
2. **Trap entry and exit code** (`Machine`, `KernelStack`, `TrapHandler`, `TrapTransparency`). The emitted
   text runs on a small RV32 step machine with byte memory, wrap-around addresses and machine CSRs. The
   main results say that an illegal instruction and an interrupt are invisible to the interrupted program.
3. **The verdict** (`HexInt`, `TraceCompare`, `UpdateMeaning`, `VerdictExactness`, `TraceStuttering`,
   `TraceCsv`, `SpikeTrace`, `SpikeEntries`, `SpikeVerdict`, `PseudoInstr`, `BitReverse`). The reading of
   a Spike log, the trace file, the two-cursor comparison and the rewriting of pseudo-instructions. `ExactVerdict` says what PASSED means;
   `SpikeReferenceIsStrict` combines the log reader, its filter, the trace file and the comparator.
4. **Smaller pieces** (`CallStack`, `LoopConstraint`, `NopFixup`, `CsrFields`, `Immediate`; `Bits` holds the
   bit operations on unbounded numbers and `Common` what all parts share).

Random choices (insertion places, shuffles, branch steps, call counts) are nondeterministic, within the
ranges the program draws from, so every result holds for all of them. An exit or an exception of the
program is a result value (`Exits`, `Raises`, `Error`, `SysExit`, `None`), not a precondition.

## What the proofs found

- `insert_instr_stream` leaves its retry loop when it hits an atomic line, not when it misses one
  (riscv_instr_stream.py:82-85). It still always ends in front of a non-atomic line or exits.
- Pruning labels in the same pass that assigns branches is wrong in general. It is right exactly when no
  branch behind the last numbered line is the only user of that line's label (`OnePassIsTwoPass`), which the
  tail trimming of `gen_instr` ensures.
- When only branches are generated, trimming empties the base stream, and every branch of the one directed
  stream that is then taken in is given the reference `-1f`. The text is closed exactly when something other
  than a branch was generated or no mixed line is a branch (`GeneratedTextIsClosedIff`, `EmptyBaseDangles`).
- `mix_instr_stream` with contained=1 never puts the last new instruction on the last line, and reverses the
  last two when an interior position is the length of the list (`ContainedMixIsNotContained`).
- An entry that changes no register is not always invisible to the comparator: it may record a second spelling
  of zero, or a value hidden behind a blank. It is invisible before every continuation exactly when it leaves
  the dictionary as it was (`UnseenIffQuiet`, `SecondSpellingIsSeen`, `HiddenWriteIsSeen`).
- The comparator stops as soon as trace 2 is consumed, so a trace 2 that breaks off right after a matching
  change passes (`TruncatedTracePasses`). A Spike log that reaches its ecall ends in a row that changes
  nothing, and against it the verdict is strict.
- `csrr` is rewritten to `csrrw rd,csr,zero`, which also clears the CSR.
- `jalr 9(x3)` is rewritten to `jalr ra,9(x3),0`, which a second rewriting turns into `jalr ra,x3,9`: the
  rewriting is idempotent except for a lone base and offset of `jalr` or one of `jr` (`ConvertIsIdempotent`).
- The frame of the kernel stack covers the words from tp-120 up to and including the one at tp, one word
  above the space that the stack pointer reserves.

## Model

| member | source | states |
|---|---|---|
| `ControlFlow.EveryRunLeaves` | UVM_tb/RISC-V/riscv-dv/pygen/pygen_src/riscv_instr_sequence.py:131-201 | The main result. For every base stream, every list of atomic directed streams (jump chains included), every outcome of the random insertions and branch steps, and any text before and after that reuses the same numeric labels, under the exact condition of TextIsClosedIff: a run inside the sequence can always step, leaves only to the line behind it, and stays inside for at most as many instructions as it has lines |
| `ControlFlow.BranchesGoForward` | UVM_tb/RISC-V/riscv-dv/pygen/pygen_src/riscv_instr_sequence.py:171-193 | Under that condition every branch of the emitted text resolves to an existing, strictly later line, no reference dangles, and a rank exists that every step raises |
| `ControlFlow.TextIsClosedIff` | UVM_tb/RISC-V/riscv-dv/pygen/pygen_src/riscv_instr_sequence.py:171-193 | The exact condition: every reference of the text resolves if and only if the base stream is not empty or no branch was mixed in |
| `ControlFlow.GeneratedTextIsClosedIff` | UVM_tb/RISC-V/riscv-dv/pygen/pygen_src/riscv_instr_stream.py:204-213 | From the instructions generated to the text: it is closed if and only if something other than a branch was generated or no mixed line is a branch, and whenever it is closed every run in any context leaves it in time |
| `ControlFlow.DanglingBranch` | UVM_tb/RISC-V/riscv-dv/pygen/pygen_src/riscv_instr_sequence.py:180-183 | When the condition fails every branch gets the reference -1f, and it resolves in no surrounding text |
| `ControlFlow.EmptyBaseTakesOneStream` | UVM_tb/RISC-V/riscv-dv/pygen/pygen_src/riscv_instr_stream.py:74-93 | Into an empty list at most one atomic stream is taken in, because a second finds no non-atomic line |
| `ControlFlow.SealedIsDirected` | UVM_tb/RISC-V/riscv-dv/pygen/pygen_src/riscv_directed_instr_lib.py:150-155 | A stream that the jump generator has labelled and made atomic is a directed stream |
| `ControlFlow.AssignedBranchGoesForward` | UVM_tb/RISC-V/riscv-dv/pygen/pygen_src/riscv_instr_sequence.py:180-193 | The assigned target is found strictly later even after pruning and after line 0's label has been overwritten, so emission never removes a definition a branch needs |
| `ControlFlow.ChainSurvives` | UVM_tb/RISC-V/riscv-dv/pygen/pygen_src/riscv_instr_sequence.py:232-247 | Post-processing and emission leave an embedded jump chain a jump chain, also when it starts on line 0 |
| `ControlFlow.EmittedTextIsStructured` | UVM_tb/RISC-V/riscv-dv/pygen/pygen_src/riscv_instr_sequence.py:131-247 | In the emitted text jumps occur only in chains, chains do not overlap, and all branches go forward |
| `ControlFlow.StructuredTextIsRanked` | UVM_tb/RISC-V/riscv-dv/pygen/pygen_src/riscv_instr_sequence.py:126-129 | Any text of that shape is closed and has a rank below its length that every step raises: block position, then place in the chain's own order |
| `ControlFlow.TrimmedBaseIsFit` | UVM_tb/RISC-V/riscv-dv/pygen/pygen_src/riscv_instr_stream.py:208-213 | The trimmed base stream and any directed streams are what the results about texts ask for, and it is not empty exactly when something other than a branch was generated |
| `ControlFlow.EmptyBaseDangles` | UVM_tb/RISC-V/riscv-dv/pygen/pygen_src/riscv_directed_instr_lib.py:129-155 | Counterexample on a stream the jump generator builds: when only branches were generated, a jump stream of ten jumps whose random end is a branch is emitted with -1f on its last line, which no line satisfies |
| `Asm.StepInContext` | UVM_tb/RISC-V/riscv-dv/pygen/pygen_src/riscv_instr_sequence.py:127-129 | A closed text has the same steps wherever it is placed: labels around it never capture its references |
| `Asm.LaterDefinitionResolves` | UVM_tb/RISC-V/riscv-dv/pygen/pygen_src/riscv_instr_sequence.py:191 | A later definition of N makes Nf resolve, no later than there |
| `Asm.RankedTextIsLeft` | UVM_tb/RISC-V/riscv-dv/pygen/pygen_src/riscv_instr_sequence.py:127-129 | In a closed, ranked text runs are bounded by its length and get stuck only just behind the last line |
| `InstrSequences.InstrSequence.PostProcessInstr` | UVM_tb/RISC-V/riscv-dv/pygen/pygen_src/riscv_instr_sequence.py:131-201 | The three passes over the shared objects compute OnePass of some result of inserting the streams one after another; with a non-atomic line present the call returns normally |
| `InstrSequences.InstrSequence.InsertDirected` | UVM_tb/RISC-V/riscv-dv/pygen/pygen_src/riscv_instr_sequence.py:137-139 | The successive insertions are a MixedFrom of the base and the directed streams, and keep all objects distinct |
| `InstrSequences.InstrSequence.NumberLabels` | UVM_tb/RISC-V/riscv-dv/pygen/pygen_src/riscv_instr_sequence.py:140-166 | Every line ends up as NumberLine of the mixed list; the returned count is the number of numbered lines |
| `InstrSequences.InstrSequence.AssignOne` | UVM_tb/RISC-V/riscv-dv/pygen/pygen_src/riscv_instr_sequence.py:172-199 | One turn: a branch gets its clamped target, the label is dropped if no branch so far uses it, and the pool of steps stays in range |
| `InstrSequences.InstrSequence.AssignBranches` | UVM_tb/RISC-V/riscv-dv/pygen/pygen_src/riscv_instr_sequence.py:167-200 | The in-place pass over the list equals the function OnePass of the unnumbered mixed list and the steps drawn |
| `InstrSequences.InstrSequence.ShuffleSteps` | UVM_tb/RISC-V/riscv-dv/pygen/pygen_src/riscv_instr_sequence.py:185-187 | Reshuffling keeps the 30 steps a permutation and in range |
| `InstrSequences.InstrSequence.GenerateInstrStream` | UVM_tb/RISC-V/riscv-dv/pygen/pygen_src/riscv_instr_sequence.py:227-253 | The emitted lines are the list with line 0 relabelled by the sequence's name (or unlabelled), plus the two return lines of a sub-program; an empty list raises |
| `MainProgram.GenMainProgram` | UVM_tb/RISC-V/riscv-dv/pygen/pygen_src/riscv_asm_program_gen.py:98-120 | The whole making of a main program on shared objects. It is emitted whenever something other than a branch is generated. Its lines are the text of a permutation of the given streams and one jump stream for each number of jumps, mixed into the generated list without its trailing branches: every line of that list in order and every stream once as a block. They are closed exactly when something other than a branch was generated or no line is a branch, and then every run in any context leaves them in time |
| `MainProgram.PrepareMainProgram` | UVM_tb/RISC-V/riscv-dv/pygen/pygen_src/riscv_asm_program_gen.py:106-112 | The streams are a permutation of those given and the jump streams; all objects are distinct, and the base stream is the generated list without its trailing branches |
| `MainProgram.FinishMainProgram` | UVM_tb/RISC-V/riscv-dv/pygen/pygen_src/riscv_asm_program_gen.py:116-119 | Post-processing and emission of any prepared streams give the text that carries the base and each stream once, and keep that promise |
| `MainProgram.AddJumpStream` | UVM_tb/RISC-V/riscv-dv/pygen/pygen_src/riscv_asm_program_gen.py:1163-1176 | The stream added is a jump chain of new objects with that number of jumps, labelled with the program's name; the earlier streams stay as they are |
| `MainProgram.ShuffleStreams` | UVM_tb/RISC-V/riscv-dv/pygen/pygen_src/riscv_asm_program_gen.py:1181 | The directed streams are a permutation of what they were, still directed and of distinct objects |
| `MainProgram.GenerateDirectedInstrStream` | UVM_tb/RISC-V/riscv-dv/pygen/pygen_src/riscv_asm_program_gen.py:1150-1181 | The streams become a permutation of the given ones and one jump chain for each number of jumps |
| `EmittedLines.TextCarriesAll` | UVM_tb/RISC-V/riscv-dv/pygen/pygen_src/riscv_instr_sequence.py:137-139 | However the streams are mixed in, the emitted text has the kinds of the base lines in order, each stream once as a block of the same kinds, and nothing else |
| `EmittedLines.EmittedLine` | UVM_tb/RISC-V/riscv-dv/pygen/pygen_src/riscv_instr_sequence.py:140-200 | One emitted line: line 0 bears the sequence's name, other atomic lines keep their label, a labelled line bears the number of labelled lines before it, and a branch names the label its step ahead, at most the last one; everything else stays |
| `EmittedLines.LabelStandsIffTarget` | UVM_tb/RISC-V/riscv-dv/pygen/pygen_src/riscv_instr_sequence.py:194-199 | Behind line 0 a number stands on its line exactly when some branch goes there |
| `EmittedLines.ReturnFollows` | UVM_tb/RISC-V/riscv-dv/pygen/pygen_src/riscv_instr_sequence.py:251-287 | Behind a sub-program's text a run comes to one plain line and then to the return jump, both labelled with the last index |
| `Labels.OnePassIsTwoPass` | UVM_tb/RISC-V/riscv-dv/pygen/pygen_src/riscv_instr_sequence.py:171-200 | Pruning during the pass equals assigning all targets first and pruning afterwards if and only if no branch behind the last numbered line is the only user of that line's label |
| `Labels.LabelSurvivesIffUsed` | UVM_tb/RISC-V/riscv-dv/pygen/pygen_src/riscv_instr_sequence.py:194-199 | In a list that ends in a plain labelled line, a numeric label survives if and only if some assigned branch refers to it |
| `Labels.TargetIsAhead` | UVM_tb/RISC-V/riscv-dv/pygen/pygen_src/riscv_instr_sequence.py:180-183 | Every branch's target label is carried by a strictly later numbered line |
| `Labels.BranchBehindLastLabel` | UVM_tb/RISC-V/riscv-dv/pygen/pygen_src/riscv_instr_sequence.py:194-199 | Counterexample: a branch behind the only label, whose target has been dropped before the branch is seen |
| `Mixing.MixingKeepsStreams` | UVM_tb/RISC-V/riscv-dv/pygen/pygen_src/riscv_instr_stream.py:71-113 | For every random index: each directed stream stays one contiguous block, erasing the blocks gives back the base stream in order, and the last base line stays last |
| `Mixing.InsertKeepsBlocks` | UVM_tb/RISC-V/riscv-dv/pygen/pygen_src/riscv_instr_stream.py:82-93 | An insertion in front of a non-atomic line splits no earlier atomic block |
| `Mixing.InsertKeepsBase` | UVM_tb/RISC-V/riscv-dv/pygen/pygen_src/riscv_instr_stream.py:108-113 | An atomic block inserted there changes neither the erased list nor the last line |
| `InstrStreams.InstrStream.InsertInstr` | UVM_tb/RISC-V/riscv-dv/pygen/pygen_src/riscv_instr_stream.py:53-66 | Where an instruction ends up for every index, when it is appended, and when the call exits or raises |
| `InstrStreams.InstrStream.InsertInstrStream` | UVM_tb/RISC-V/riscv-dv/pygen/pygen_src/riscv_instr_stream.py:71-113 | A random insertion succeeds if and only if some line is not atomic, and then lands in front of a non-atomic one; explicit indices, replacement with the copied label, and both error exits |
| `InstrStreams.InstrStream.MixInstrStream` | UVM_tb/RISC-V/riscv-dv/pygen/pygen_src/riscv_instr_stream.py:119-135 | Every insertion is in range and the result is Merged at positions that are a sorted draw, changed at its ends by contained; with contained an empty input raises |
| `InstrStreams.MixIsMerge` | UVM_tb/RISC-V/riscv-dv/pygen/pygen_src/riscv_instr_stream.py:119-135 | For sorted positions, as contained=0 always uses, the result is an order-preserving merge: new item i stands at positions[i]+i, old items keep their order, no place is used twice |
| `InstrStreams.ContainedMixIsNotContained` | UVM_tb/RISC-V/riscv-dv/pygen/pygen_src/riscv_instr_stream.py:115-135 | With contained=1 and a non-empty list only the first and last drawn position are changed, the first line is the first new item, and the last new item always ends on the last line but one, in front of the last old item or, when an interior position is the length of the list, of the new item before it; the positions then no longer increase |
| `InstrStreams.InstrStream.GenInstr` | UVM_tb/RISC-V/riscv-dv/pygen/pygen_src/riscv_instr_stream.py:204-213 | The list is the generated one without its trailing branches; an empty request raises |
| `InstrStreams.InstrStream.TrimTail` | UVM_tb/RISC-V/riscv-dv/pygen/pygen_src/riscv_instr_stream.py:210-213 | The popping loop yields the longest prefix that does not end in a branch |
| `JalChain.JalInstr.PostRandomize` | UVM_tb/RISC-V/riscv-dv/pygen/pygen_src/riscv_directed_instr_lib.py:107-155 | For every shuffle the stream built is a jump chain of fresh, distinct, atomic, labelled instructions |
| `JalChain.JumpGoesToNext` | UVM_tb/RISC-V/riscv-dv/pygen/pygen_src/riscv_directed_instr_lib.py:142-149 | Wherever a chain is embedded, and whatever labels the rest reuses, each of its f/b references resolves to exactly the next line of its path |
| `JalChain.ChainRunIsForced` | UVM_tb/RISC-V/riscv-dv/pygen/pygen_src/riscv_directed_instr_lib.py:142-152 | A run that starts at the chain's first line follows the path step by step until the end instruction |
| `JalChain.ChainPathIsBijective` | UVM_tb/RISC-V/riscv-dv/pygen/pygen_src/riscv_directed_instr_lib.py:112-114 | The path visits each line of the chain exactly once |
| `JalChain.JalInstr.LinkJumps` | UVM_tb/RISC-V/riscv-dv/pygen/pygen_src/riscv_directed_instr_lib.py:142-149 | The loop gives the i-th jump taken the reference to the next one in order, forwards or backwards |
| `JalChain.ShuffledRangeIsPermutation` | UVM_tb/RISC-V/riscv-dv/pygen/pygen_src/riscv_directed_instr_lib.py:110-114 | Every outcome of the shuffle is a permutation of the jump numbers |
| `TrapTransparency.IllegalInstructionIsTransparent` | UVM_tb/RISC-V/riscv-dv/pygen/pygen_src/riscv_asm_program_gen.py:903-914 | From every machine state at trap entry with cause 2 the program reaches mret with x1 to x31 as at the trap and mepc+4; otherwise only mscratch (the kernel stack pointer) and the 31 words of the frame differ |
| `TrapTransparency.InterruptIsTransparent` | UVM_tb/RISC-V/riscv-dv/pygen/pygen_src/riscv_asm_program_gen.py:957-1030 | From every machine state at trap entry with an interrupt cause the program reaches mret with x1 to x31 and mepc unchanged, mip cleared, and only mscratch and the frame written |
| `TrapTransparency.OtherExceptionsEndTheTest` | UVM_tb/RISC-V/riscv-dv/pygen/pygen_src/riscv_asm_program_gen.py:767-831 | Every other cause reaches the ecall handler or the jump to test_done, with the interrupted registers still in the frame |
| `TrapTransparency.EntryRuns` | UVM_tb/RISC-V/riscv-dv/pygen/pygen_src/riscv_asm_program_gen.py:775-803 | From the trap vector the machine saves all registers and goes to the interrupt handler if and only if the cause has its top bit set |
| `TrapTransparency.Dispatch` | UVM_tb/RISC-V/riscv-dv/pygen/pygen_src/riscv_asm_program_gen.py:813-831 | The exception code reaches the ecall handler, the illegal-instruction handler or the exit according to the cause, changing only gpr[0] and gpr[1] |
| `TrapTransparency.LabelsAreFound` | UVM_tb/RISC-V/riscv-dv/pygen/pygen_src/riscv_asm_program_gen.py:726-765 | The handler labels resolve to the sections generated for them |
| `TrapTransparency.EcallHandlerDumps` | UVM_tb/RISC-V/riscv-dv/pygen/pygen_src/riscv_asm_program_gen.py:876-882 | The ecall handler writes all 32 registers to the 32 words from the base it has loaded and nothing else, and jumps to write_tohost |
| `TrapTransparency.DumpEffect` | UVM_tb/RISC-V/riscv-dv/pygen/pygen_src/riscv_asm_program_gen.py:562-571 | The dump's stores put register i into word i |
| `TrapTransparency.InterruptHandlerReads` | UVM_tb/RISC-V/riscv-dv/pygen/pygen_src/riscv_asm_program_gen.py:1003-1015 | mstatus, mie and mip are read into gpr[0] one after the other |
| `TrapTransparency.ExceptionCodeReads` | UVM_tb/RISC-V/riscv-dv/pygen/pygen_src/riscv_asm_program_gen.py:814-828 | mepc and mcause are read into gpr[0], and mtval into gpr[1] before the code gives up |
| `TrapTransparency.EntryReadsStatus` | UVM_tb/RISC-V/riscv-dv/pygen/pygen_src/riscv_asm_program_gen.py:783-785 | With check_xstatus mstatus is read behind the push |
| `TrapTransparency.KernelLandmarks` | UVM_tb/RISC-V/riscv-dv/pygen/pygen_src/riscv_asm_program_gen.py:744-755 | The page-fault label, the end of the kernel text and the label of the push stand where they should |
| `TrapTransparency.LegalIsWorkable` | UVM_tb/RISC-V/riscv-dv/pygen/pygen_src/riscv_instr_gen_config.py:386-414 | The constraints on the reserved registers give what the trap code needs: four different registers other than x0 |
| `TrapTransparency.LegalChoicesExist` | UVM_tb/RISC-V/riscv-dv/pygen/pygen_src/riscv_instr_gen_config.py:386-414 | Any two different registers other than zero, ra and gp can be the stack pointers |
| `TrapHandler.AsmProgramGen.GenTrapHandlerSection` | UVM_tb/RISC-V/riscv-dv/pygen/pygen_src/riscv_asm_program_gen.py:767-831 | In direct mode the method appends exactly the text TrapSections |
| `TrapHandler.AsmProgramGen.GenIllegalInstrHandler` | UVM_tb/RISC-V/riscv-dv/pygen/pygen_src/riscv_asm_program_gen.py:903-914 | The method appends exactly the text IllegalSection |
| `TrapHandler.AsmProgramGen.GenInterruptHandlerSection` | UVM_tb/RISC-V/riscv-dv/pygen/pygen_src/riscv_asm_program_gen.py:957-1030 | The method appends exactly the text InterruptSection |
| `TrapHandler.AsmProgramGen.GenEcallHandler` | UVM_tb/RISC-V/riscv-dv/pygen/pygen_src/riscv_asm_program_gen.py:876-882 | The method appends exactly the text EcallSection, with its register dump |
| `TrapHandler.AsmProgramGen.GenKernelSections` | UVM_tb/RISC-V/riscv-dv/pygen/pygen_src/riscv_asm_program_gen.py:163-180 | The kernel text is the sections in their order of generation, which is the program the transparency lemmas run |
| `KernelStack.PushBodyPop` | UVM_tb/RISC-V/riscv-dv/pygen/pygen_src/riscv_instr_pkg.py:1972-2019 | For all distinct nonzero sp and tp, all states, and any body that keeps sp, the frame and scratch: push, body, pop restores x1 to x31 although pop reloads sp and tp; only the 31 words from tp-120 to tp are written, and scratch ends as the original tp |
| `KernelStack.PushEffect` | UVM_tb/RISC-V/riscv-dv/pygen/pygen_src/riscv_instr_pkg.py:1972-2004 | Push stores every register in its slot, moves only sp, saves the old sp in scratch, and writes nothing outside the frame |
| `KernelStack.PopEffect` | UVM_tb/RISC-V/riscv-dv/pygen/pygen_src/riscv_instr_pkg.py:2007-2019 | Pop loads every slot back, leaves the stack pointer in tp and swaps sp with scratch |
| `KernelStack.LoadsReadFrame` | UVM_tb/RISC-V/riscv-dv/pygen/pygen_src/riscv_instr_pkg.py:2010-2012 | The loads read the whole frame although one of them overwrites the base register |
| `KernelStack.StoresFillFrame` | UVM_tb/RISC-V/riscv-dv/pygen/pygen_src/riscv_instr_pkg.py:2002-2004 | The stores fill slots 1 to n with the current registers and leave all other bytes alone |
| `KernelStack.PushGprToKernelStack` | UVM_tb/RISC-V/riscv-dv/pygen/pygen_src/riscv_instr_pkg.py:1972-2004 | The loop appends exactly PushCode to the caller's list |
| `KernelStack.PopGprFromKernelStack` | UVM_tb/RISC-V/riscv-dv/pygen/pygen_src/riscv_instr_pkg.py:2007-2019 | The loop appends exactly PopCode to the caller's list |
| `VerdictExactness.ExactVerdict` | UVM_tb/RISC-V/riscv-dv/scripts/instr_trace_compare.py:62-134 | With a non-empty trace 1 the comparison ends in a verdict whose matched count is the number of agreeing pairs, and it is PASSED if and only if the state-changing entries are equal, or trace 2 ends in a state-changing entry and its changing entries are a proper prefix of trace 1's |
| `VerdictExactness.CompareCounts` | UVM_tb/RISC-V/riscv-dv/scripts/instr_trace_compare.py:65-134 | The exact matched and mismatched counts from any point of the comparison on, including the line count added for what is left of trace 2 |
| `VerdictExactness.AgreeCounts` | UVM_tb/RISC-V/riscv-dv/scripts/instr_trace_compare.py:88-117 | The matched count is the number of positions at which the changing entries are equal |
| `VerdictExactness.ExactMismatches` | UVM_tb/RISC-V/riscv-dv/scripts/instr_trace_compare.py:121-133 | When trace 2 has more changes, the mismatches are the unequal pairs and every line from its first unpaired change on |
| `VerdictExactness.LeftFromPosition` | UVM_tb/RISC-V/riscv-dv/scripts/instr_trace_compare.py:130-132 | The lines left from the k-th change on are those from its position to the end |
| `VerdictExactness.AbnormalEndsHaveReasons` | UVM_tb/RISC-V/riscv-dv/scripts/instr_trace_compare.py:239-250 | The comparison exits only over a malformed item, and fails only over a value that is no number or with an empty trace 1 |
| `VerdictExactness.EmptyTraceVerdict` | UVM_tb/RISC-V/riscv-dv/scripts/instr_trace_compare.py:121-130 | With an empty trace 1 the comparison passes if and only if trace 2 changes nothing; otherwise the program itself fails |
| `VerdictExactness.TruncatedTracePasses` | UVM_tb/RISC-V/riscv-dv/scripts/instr_trace_compare.py:118-120 | Counterexample to symmetry: a truncated trace 2 passes, and the same pair fails the other way round |
| `VerdictExactness.FindIsNextChanging` | UVM_tb/RISC-V/riscv-dv/scripts/instr_trace_compare.py:73-80 | The inner search stops at the next state-changing entry and at no other |
| `TraceCompare.CompareTraceCsv` | UVM_tb/RISC-V/riscv-dv/scripts/instr_trace_compare.py:62-134 | The two-cursor loops over the two dictionaries compute the specification Compare, abnormal ends included |
| `TraceCompare.CheckUpdateGpr` | UVM_tb/RISC-V/riscv-dv/scripts/instr_trace_compare.py:236-253 | The loop computes whether an entry changes a register and the dictionary after it, with its exits for malformed items |
| `HexInt.SpellingsOfZero` | UVM_tb/RISC-V/riscv-dv/scripts/instr_trace_compare.py:250 | 0 and 00 are two accepted spellings of zero |
| `HexInt.DigitsBehind` | UVM_tb/RISC-V/riscv-dv/scripts/instr_trace_compare.py:250 | Positional notation: digits put behind others multiply their number by 16 for each place and add their own |
| `HexInt.DigitCharacters` | UVM_tb/RISC-V/riscv-dv/scripts/instr_trace_compare.py:250 | The number each of the 22 digit characters stands for |
| `HexInt.ZeroIffAllZeros` | UVM_tb/RISC-V/riscv-dv/scripts/instr_trace_compare.py:250 | Plain digits stand for zero exactly when every one is a 0 |
| `HexInt.AcceptedForms` | UVM_tb/RISC-V/riscv-dv/scripts/instr_trace_compare.py:250 | Blanks around, a sign and a 0x prefix are accepted, and only the minus sign changes the number |
| `HexInt.BlankCharacters` | UVM_tb/RISC-V/riscv-dv/scripts/instr_trace_compare.py:250 | The characters that count as blanks |
| `HexInt.UnderscoreBetweenDigits` | UVM_tb/RISC-V/riscv-dv/scripts/instr_trace_compare.py:250 | A single underscore between digits does not count |
| `HexInt.RefusedForms` | UVM_tb/RISC-V/riscv-dv/scripts/instr_trace_compare.py:250 | Nothing, a bare prefix, and an underscore in front, behind or doubled are refused |
| `HexInt.OtherCharactersAreRefused` | UVM_tb/RISC-V/riscv-dv/scripts/instr_trace_compare.py:250 | Any other character makes a text no number |
| `UpdateMeaning.CheckMeans` | UVM_tb/RISC-V/riscv-dv/scripts/instr_trace_compare.py:236-253 | check_update_gpr item by item: a malformed item exits, a first value that is no number raises, a blank reports no change, and otherwise there is a change exactly when some item differs from the value recorded before it or is a first value other than zero; every value read is recorded |
| `UpdateMeaning.ReadingStops` | UVM_tb/RISC-V/riscv-dv/scripts/instr_trace_compare.py:238-243 | Every entry is read up to its end or to a first item that stops the reading |
| `UpdateMeaning.FirstWriteIsChange` | UVM_tb/RISC-V/riscv-dv/scripts/instr_trace_compare.py:249-251 | A first write of plain digits is a change exactly when one of them is not a 0 |
| `TraceCompare.SameUpdates` | UVM_tb/RISC-V/riscv-dv/scripts/instr_trace_compare.py:88-117 | The length test and the item loop together decide equality of the two update lists |
| `TraceStuttering.StutterInTrace1` | UVM_tb/RISC-V/riscv-dv/scripts/instr_trace_compare.py:70-72 | A quiet entry anywhere in a non-empty trace 1 leaves the whole outcome as it is: in all well-formed traces one that leaves the dictionary as it was, and before entries with one spelling of zero one that keeps every register value |
| `TraceStuttering.StutterInTrace2` | UVM_tb/RISC-V/riscv-dv/scripts/instr_trace_compare.py:73-80 | A quiet entry anywhere but at the end of trace 2 leaves verdict and matched count as they are |
| `TraceStuttering.UnseenIffQuiet` | UVM_tb/RISC-V/riscv-dv/scripts/instr_trace_compare.py:236-253 | The exact condition, in both traces: an entry is invisible before every well-formed continuation if and only if it changes no register and leaves the dictionary as it was; before every continuation with its spelling of zero if and only if it changes no register and keeps every value |
| `TraceStuttering.CleanIdleEntryIsQuiet` | UVM_tb/RISC-V/riscv-dv/scripts/instr_trace_compare.py:236-253 | For an entry with one spelling of zero and blanks standing alone, keeping every value is just changing no register |
| `TraceStuttering.SecondSpellingIsSeen` | UVM_tb/RISC-V/riscv-dv/scripts/instr_trace_compare.py:246-252 | Counterexample: a first write of 0 is idle, yet it makes a later 00 count as a change and turns a pass into a failure |
| `TraceStuttering.HiddenWriteIsSeen` | UVM_tb/RISC-V/riscv-dv/scripts/instr_trace_compare.py:239-253 | Counterexample: a write with a blank behind it is idle, yet it records its value, and the next write of that value is no longer a change |
| `TraceStuttering.IdleTailMakesVerdictStrict` | UVM_tb/RISC-V/riscv-dv/scripts/instr_trace_compare.py:118-120 | For all well-formed traces: an idle entry behind the last one is not seen in trace 1, and in trace 2 it turns the verdict into equality of the changing entries |
| `TraceStuttering.EqualChangesEqualState` | UVM_tb/RISC-V/riscv-dv/scripts/instr_trace_compare.py:236-253 | Traces with equal changing entries leave every register with the same value, a register never written counting as zero |
| `TraceStuttering.PassedMeansSameState` | UVM_tb/RISC-V/riscv-dv/scripts/instr_trace_compare.py:62-134 | A pass against a trace that ends idle is agreement on all final registers |
| `TraceStuttering.CheckSeesValues` | UVM_tb/RISC-V/riscv-dv/scripts/instr_trace_compare.py:236-253 | For entries with one spelling of zero, whether an entry changes a register depends only on the register values, not on which registers the dictionary holds |
| `SpikeTrace.ReadSpikeTrace` | UVM_tb/RISC-V/riscv-dv/scripts/spike_log_to_trace_csv.py:127-189 | The line-by-line state machine yields exactly the segmentation: per instruction line its commits up to the next instruction or illegal-trap line, and the illegal flag only if such a line ends the segment |
| `SpikeTrace.InstrLinesAreAll` | UVM_tb/RISC-V/riscv-dv/scripts/spike_log_to_trace_csv.py:140-165 | The yielded entries belong to exactly the instruction lines up to and including the first ecall, each once, in order |
| `SpikeEntries.YieldedEntry` | UVM_tb/RISC-V/riscv-dv/scripts/spike_log_to_trace_csv.py:140-189 | Each entry by the numbered lines of the log: pc, text and binary of its instruction line; one reg:value item for each commit line and one for each CSR update, in line order and no other; the mode of the last commit; nothing for an ecall, otherwise all lines up to the next instruction or illegal-instruction line, with the illegal flag exactly when the latter comes first |
| `SpikeEntries.KeptRows` | UVM_tb/RISC-V/riscv-dv/scripts/spike_log_to_trace_csv.py:208-226 | The rows written are, in order, all entries of a full trace, and otherwise exactly those with a register update and the wfi and ecall instructions |
| `SpikeTrace.SegmentEnd` | UVM_tb/RISC-V/riscv-dv/scripts/spike_log_to_trace_csv.py:155-172 | The end of a segment is the first line that starts an instruction or reports an illegal one |
| `SpikeTrace.TrampolineEnd` | UVM_tb/RISC-V/riscv-dv/scripts/spike_log_to_trace_csv.py:129-138 | Reading starts behind the first line that ends the trampoline |
| `SpikeTrace.TraceEntry.AddCommit` | UVM_tb/RISC-V/riscv-dv/scripts/spike_log_to_trace_csv.py:176-185 | A commit appends its register update, its CSR update if any, and sets the mode |
| `SpikeTrace.ProcessSpikeSimLog` | UVM_tb/RISC-V/riscv-dv/scripts/spike_log_to_trace_csv.py:192-230 | The rows written are the yielded entries the filter keeps, and the returned count is their number |
| `SpikeVerdict.SpikeReferenceIsStrict` | UVM_tb/RISC-V/riscv-dv/scripts/spike_log_to_trace_csv.py:215-223 | Against a Spike log that reaches its ecall the verdict is strict, filtered or full: a trace passes if and only if its changing entries are those of the whole log |
| `SpikeVerdict.FilterKeepsVerdict` | UVM_tb/RISC-V/riscv-dv/scripts/spike_log_to_trace_csv.py:215-223 | With the Spike log as trace 1 the filter changes neither the verdict nor a count |
| `SpikeVerdict.FilterKeepsChanging` | UVM_tb/RISC-V/riscv-dv/scripts/spike_log_to_trace_csv.py:221-223 | The filter drops no state-changing entry, whatever registers reading starts from |
| `TraceCsv.GprColumnRoundTrip` | UVM_tb/RISC-V/riscv-dv/scripts/riscv_trace_csv.py:61-87 | Writing the updates joined with ; and reading them back gives exactly those updates, and one blank item for none |
| `TraceCsv.SplitUndoesJoin` | UVM_tb/RISC-V/riscv-dv/scripts/riscv_trace_csv.py:66-67 | split undoes join for items without the separator |
| `TraceCsv.JoinUndoesSplit` | UVM_tb/RISC-V/riscv-dv/scripts/riscv_trace_csv.py:66-67 | join undoes split, and no part holds the separator |
| `TraceCsv.ParseUpdateMeans` | UVM_tb/RISC-V/riscv-dv/scripts/instr_trace_compare.py:239-245 | Nothing is a blank, one colon makes a write of its two sides, no or several colons a malformed item |
| `TraceCsv.ParseUndoesItem` | UVM_tb/RISC-V/riscv-dv/scripts/instr_trace_compare.py:239-245 | An update written as reg:value is taken apart into the same register and value |
| `PseudoInstr.MeaningIsPreserved` | UVM_tb/RISC-V/riscv-dv/scripts/lib.py:346-488 | For every machine state and well-formed operands the rewritten instruction steps to the same state as the pseudo-instruction, for all RV32I/Zicsr ones except csrr, for negw and sext.w on the low words, and for the fifteen bit reversals |
| `PseudoInstr.ReverseIsPreserved` | UVM_tb/RISC-V/riscv-dv/scripts/lib.py:444-488 | grevi with the control value of the name puts the groups of bits in each field in reverse order |
| `BitReverse.FlipsReverse` | UVM_tb/RISC-V/riscv-dv/scripts/lib.py:444-488 | Reversing groups in fields is inverting just the index bits from the group size up to the field size |
| `PseudoInstr.RetFollowsEncoding` | UVM_tb/RISC-V/riscv-dv/scripts/lib.py:435-441 | ret becomes c.jr ra exactly when its encoding ends in 2, and jalr zero,ra,0 otherwise |
| `PseudoInstr.RaisesIffSomethingIsMissing` | UVM_tb/RISC-V/riscv-dv/scripts/lib.py:357-407 | The rewriting raises exactly over a missing operand of a form it takes apart, or over ret with an empty encoding |
| `PseudoInstr.CsrrIsPreservedOnlyForZero` | UVM_tb/RISC-V/riscv-dv/scripts/lib.py:408-410 | csrr is rewritten to a csrrw that also clears the CSR: the same step if and only if the CSR holds zero |
| `PseudoInstr.ConvertIsIdempotent` | UVM_tb/RISC-V/riscv-dv/scripts/lib.py:346-441 | Rewriting twice is rewriting once, for all operands, if and only if the instruction is neither a jr with a base and offset that the search finds nor a jalr with nothing but one |
| `PseudoInstr.ConvertedIsUntouched` | UVM_tb/RISC-V/riscv-dv/scripts/lib.py:346-441 | Outside those two forms the result is an instruction that the rewriting does not touch |
| `PseudoInstr.BaseIsRegroupedLater` | UVM_tb/RISC-V/riscv-dv/scripts/lib.py:426-434 | In those two forms the second rewriting regroups what the first left behind |
| `PseudoInstr.BaseIsKept` | UVM_tb/RISC-V/riscv-dv/scripts/lib.py:423-434 | Every well-formed base instruction is kept as it is, jal and jalr with explicit operands included |
| `PseudoInstr.ArithmeticIsPreserved` | UVM_tb/RISC-V/riscv-dv/scripts/lib.py:351-381 | mv, not, neg, seqz, snez, sltz and sgtz keep their meaning |
| `PseudoInstr.ZeroBranchIsPreserved` | UVM_tb/RISC-V/riscv-dv/scripts/lib.py:382-391 | The six branches on a comparison with zero keep their meaning |
| `PseudoInstr.BranchIsPreserved` | UVM_tb/RISC-V/riscv-dv/scripts/lib.py:392-407 | bgt, ble, bgtu and bleu keep their meaning with the operands swapped |
| `PseudoInstr.CsrWriteIsPreserved` | UVM_tb/RISC-V/riscv-dv/scripts/lib.py:411-416 | The six CSR writes keep their meaning, also where the base instruction does not write |
| `PseudoInstr.JumpIsPreserved` | UVM_tb/RISC-V/riscv-dv/scripts/lib.py:417-441 | j, jal, jr, jalr and ret keep their meaning, ret also as c.jr |
| `CallStack.CallStackGen.PostRandomize` | UVM_tb/RISC-V/riscv-dv/pygen/experimental/riscv_callstack_gen.py:132-185 | For any levels that satisfy the constraint and all random choices the method builds a CallGraph, with an extra call on just the levels that draw one, and numbers the programs |
| `CallStack.CallStackGen.DistributeLevel` | UVM_tb/RISC-V/riscv-dv/pygen/experimental/riscv_callstack_gen.py:140-185 | One round: the calls of level i are the programs of level i+1 with at most one repeated, and no other level's calls change |
| `CallStack.CallStackGen.ShareOut` | UVM_tb/RISC-V/riscv-dv/pygen/experimental/riscv_callstack_gen.py:179-185 | The pool is handed out in order and without loss, to each program as many as its count |
| `CallStack.CallStackGen.Init` | UVM_tb/RISC-V/riscv-dv/pygen/experimental/riscv_callstack_gen.py:114-118 | Programs are created distinct and without calls |
| `CallStack.ChoosePool` | UVM_tb/RISC-V/riscv-dv/pygen/experimental/riscv_callstack_gen.py:155-165 | The pool is a permutation of the next level's programs, plus one of them again if one is drawn |
| `CallStack.ChooseCounts` | UVM_tb/RISC-V/riscv-dv/pygen/experimental/riscv_callstack_gen.py:166-178 | Any counts that add up to the pool size may come out |
| `CallStack.CallsGoUpOneLevel` | UVM_tb/RISC-V/riscv-dv/pygen/experimental/riscv_callstack_gen.py:138-150 | Every call goes up exactly one level |
| `CallStack.EveryProgramHasACaller` | UVM_tb/RISC-V/riscv-dv/pygen/experimental/riscv_callstack_gen.py:169-170 | Every program but the root has a caller one level below |
| `CallStack.NoCallLoops` | UVM_tb/RISC-V/riscv-dv/pygen/experimental/riscv_callstack_gen.py:71 | No chain of calls returns to its start or is longer than the last level |
| `CallStack.EveryProgramIsReached` | UVM_tb/RISC-V/riscv-dv/pygen/experimental/riscv_callstack_gen.py:169-170 | A chain of calls leads from the root to every program, as long as the program's level |
| `CallStack.EveryLevelIsUsed` | UVM_tb/RISC-V/riscv-dv/pygen/experimental/riscv_callstack_gen.py:104-111 | The level constraint leaves no gap below the last level |
| `LoopConstraint.LoopEnds` | UVM_tb/RISC-V/riscv-dv/pygen/pygen_src/riscv_loop_instr.py:107-139 | Every solution of loop_c makes the counted loop on 32-bit words stop after exactly the stated number of iterations, at most abs(limit-init)+1, for all eight branch types |
| `LoopConstraint.SolutionsOf` | UVM_tb/RISC-V/riscv-dv/pygen/pygen_src/riscv_loop_instr.py:107-139 | The solutions for each branch type, drawn together: the direction of the step, the order of start and limit, and what the unsigned branches add |
| `LoopConstraint.CountsOnWords` | UVM_tb/RISC-V/riscv-dv/pygen/pygen_src/riscv_loop_instr.py:107-139 | The count on small integers is the count of the 32-bit machine loop, signed and unsigned branches included |
| `LoopConstraint.CountsDown` | UVM_tb/RISC-V/riscv-dv/pygen/pygen_src/riscv_loop_instr.py:122-128 | For bge and bgeu the counter goes down past the limit and never wraps below zero for the unsigned branch |
| `LoopConstraint.CountsUp` | UVM_tb/RISC-V/riscv-dv/pygen/pygen_src/riscv_loop_instr.py:129-133 | For blt, and for bltu once the counter is not negative, the counter goes up to the limit |
| `LoopConstraint.CountsTo` | UVM_tb/RISC-V/riscv-dv/pygen/pygen_src/riscv_loop_instr.py:116-121 | For bne the counter meets the limit, once, after (limit-init)/step updates |
| `NopFixup.Fixup` | UVM_tb/RISC-V/riscv-dv/.github/scripts/code_fixup.py:66-97 | The scanning loop produces the specified text Fixed |
| `NopFixup.NextTwo` | UVM_tb/RISC-V/riscv-dv/.github/scripts/code_fixup.py:82-88 | The scan ahead finds the next two instructions that carry operands |
| `NopFixup.FixupOnlyAddsNops` | UVM_tb/RISC-V/riscv-dv/.github/scripts/code_fixup.py:66-97 | Deleting the inserted NOPs gives back the input |
| `NopFixup.DelayedWritesAreApart` | UVM_tb/RISC-V/riscv-dv/.github/scripts/code_fixup.py:78-97 | A div, divu, rem, remu or lw and either of the next two instructions that names the same first operand have at least ten instruction lines between them in the output |
| `NopFixup.ExactNops` | UVM_tb/RISC-V/riscv-dv/.github/scripts/code_fixup.py:78-97 | Every line is followed in the output by an exact number of NOPs: ten behind one of the five delayed writes whose register the next instruction names, nine when only the second next one does, none otherwise |
| `NopFixup.NopsOnlyWhereNeeded` | UVM_tb/RISC-V/riscv-dv/.github/scripts/code_fixup.py:73-80 | NOPs are added only behind one of these five instructions that such an instruction follows |
| `CsrFields.FieldIsRecovered` | UVM_tb/RISC-V/riscv-dv/pygen/pygen_src/riscv_reg.py:72-84 | For fitting values every field is read back from the packed value by shift and mask |
| `CsrFields.PackIsBounded` | UVM_tb/RISC-V/riscv-dv/pygen/pygen_src/riscv_reg.py:81-84 | The packed value is below 2^width for the total width |
| `CsrFields.SetReplacesItsSlice` | UVM_tb/RISC-V/riscv-dv/pygen/pygen_src/riscv_reg.py:94-101 | set_field with a fitting value replaces exactly its slice: it reads as the value, every other slice as before, and the packed value changes by that slice alone |
| `CsrFields.PackIsInjective` | UVM_tb/RISC-V/riscv-dv/pygen/pygen_src/riscv_reg.py:81-84 | Fields of equal widths with equal packed values are equal |
| `CsrFields.MstatusLayout` | UVM_tb/RISC-V/riscv-dv/pygen/pygen_src/riscv_privil_reg.py:32-60 | With the widths init_reg declares, the packed mstatus is a 32-bit word with every field at its architectural position |
| `CsrFields.MstatusBits` | UVM_tb/RISC-V/riscv-dv/pygen/pygen_src/riscv_privil_reg.py:32-60 | With the numbers written out: SIE at bit 1, MIE at 3, SPIE at 5, MPIE at 7, SPP at 8, VS at 9, MPP at 11, FS at 13, XS at 15, MPRV at 17, SUM at 18, MXR at 19, TVM at 20, TW at 21, TSR at 22, SD at 31 |
| `CsrFields.MstatusNames` | UVM_tb/RISC-V/riscv-dv/pygen/pygen_src/riscv_privil_reg.py:32-60 | The fields at these places are the ones of these names |
| `CsrFields.MstatusIsMstatus` | UVM_tb/RISC-V/riscv-dv/pygen/pygen_src/riscv_privil_reg.py:32-60 | The fields that init_reg adds have these widths and are zero at first |
| `CsrFields.Reg.InitMstatus` | UVM_tb/RISC-V/riscv-dv/pygen/pygen_src/riscv_privil_reg.py:30-60 | init_reg for MSTATUS leaves exactly these fields |
| `CsrFields.Reg.GetVal` | UVM_tb/RISC-V/riscv-dv/pygen/pygen_src/riscv_reg.py:72-84 | The two descending loops exit unless the widths add up to XLEN, and otherwise pack the fields |
| `CsrFields.Reg.SetField` | UVM_tb/RISC-V/riscv-dv/pygen/pygen_src/riscv_reg.py:94-103 | The last field of that name is set, its reset value too when hard-wired; without one nothing changes and the call exits |
| `CsrFields.Reg.FieldByName` | UVM_tb/RISC-V/riscv-dv/pygen/pygen_src/riscv_reg.py:105-110 | The descending search finds the last field of that name, or none |
| `CsrFields.Reg.AddField` | UVM_tb/RISC-V/riscv-dv/pygen/pygen_src/riscv_reg.py:86-92 | The new field goes behind the others with the given width and reset value |
| `CsrFields.LastNamed` | UVM_tb/RISC-V/riscv-dv/pygen/pygen_src/riscv_reg.py:95-97 | The field found is the last one of that name |
| `Immediate.PrintedIsTheCongruentValue` | UVM_tb/RISC-V/riscv-dv/pygen/pygen_src/isa/riscv_instr.py:336-355 | For every immediate length below 32 and every immediate, the printed number is the one number in the signed (or unsigned) range that is congruent to it modulo 2^len |
| `Immediate.PrintImmediate` | UVM_tb/RISC-V/riscv-dv/pygen/pygen_src/isa/riscv_instr.py:336-359 | From creation to print, with the ranges written out: I, S and B formats print the congruent number in -2048..2047, with UIMM in 0..31 modulo 32; U format the one in 0..2^20-1; J format the one in -2^19..2^19-1, or 0..2^20-1 when unsigned; a format without an immediate prints 0 |
| `Immediate.ExtendIsIdempotent` | UVM_tb/RISC-V/riscv-dv/pygen/pygen_src/isa/riscv_instr.py:346-355 | extend_imm applied to its own result changes nothing |
| `Immediate.InstrImm.SetImmLen` | UVM_tb/RISC-V/riscv-dv/pygen/pygen_src/isa/riscv_instr.py:336-344 | The length follows the format and the mask is all bits from the length upwards |
| `Immediate.InstrImm.ExtendImm` | UVM_tb/RISC-V/riscv-dv/pygen/pygen_src/isa/riscv_instr.py:346-355 | The shifts, the sign test and the OR compute Extended |
| `Immediate.InstrImm.PostRandomize` | UVM_tb/RISC-V/riscv-dv/pygen/pygen_src/isa/riscv_instr.py:357-359 | The immediate printed is Printed of the immediate drawn |
| `Immediate.PrintedValue` | UVM_tb/RISC-V/riscv-dv/pygen/pygen_src/isa/riscv_instr.py:538-543 | The printed number in closed form: the low bits, less 2^len for a negative signed immediate |

## Left out

- Illegal and hint instruction injection: the percentages are never set and the attribute the numbering loop would test does not exist, so the model takes both percentages as zero.
- Loop streams (`build_loop_instr_stream`): the emitted loop does not match its constraint; only the constraint is modelled, without the choice of registers and of nested loops.
- Objects appended to more than one list: when an insertion meets an empty list the program shares one list object between two owners; in the model they are two lists of the same instruction objects.
- InstrStreams.InstrStream.GenInstr: the randomisation of a single instruction is reduced to its category (branch or not), which is all that control flow depends on.
- JalChain.JalInstr.PostRandomize: the choice of registers and of the compressed spellings is not modelled; the number of jumps may be any positive number rather than 10 to 30.
- Vectored mtvec, nested interrupts, signature writes, address translation, MPRV, PMP, several harts, XLEN 64: the configuration modelled is direct mtvec, bare SATP, XLEN 32, one hart.
- What hardware does at trap entry and at mret: the lemmas run from the trap vector to the mret instruction.
- TrapTransparency.OtherExceptionsEndTheTest: the machine stops at the first la, so the ecall handler's dump and the test_done code are emitted but not run.
- Read-only bits of mip: the model's mip is writable, so clearing the bits read clears it.
- CSV quoting, YAML, regular expressions and argument handling: a log line is the set of things the regular expressions find in it, and a trace file is its gpr column.
- The operand columns that full_trace adds to a trace row; the comparator does not read them.
- TraceCompare.CheckUpdateGpr: values are ASCII text; the other digits and blanks of Unicode that Python's int(x, 16) also accepts are errors here.
- TraceStuttering.StutterInTrace2: behind the last entry of trace 2 an idle entry is seen; what holds there is IdleTailMakesVerdictStrict.
- InstrStreams.ContainedMixIsNotContained: says nothing about mixing into an empty list, where only new instructions stand in the result.
- PseudoInstr.MeaningIsPreserved: operands are tokens between commas, immediates are already extended to 32 bits, and CSR reads have no side effects; the orc, zip, unzip and zext names of the bit-manipulation draft are not modelled.
- MainProgram.GenMainProgram: the program header, the sub-programs and the text around the main program are any text before and after it; directed streams other than jump streams are given, not generated.
- Stack enter and exit code of sub-programs, which the program itself leaves commented out, and what their return jump does.
- Out-of-order comparison and coalescing: commented out in the program.
- Solver internals: a solution of the level, count and loop constraints is taken as given.
- CallStack.CallStackGen.PostRandomize: levels are any solution of the constraint, while the program as written passes the variable names 0 to n-1 as levels, which is one such solution.
- NopFixup.Fixup: a line is already parsed into mnemonic and first operand; an instruction without operands counts as other text, as in the program's own pattern.
- riscv_reg.set_val: it never shifts the value between fields, so nothing holds to be stated. Field constraints, randomisation and reset are not modelled.
- CsrFields.Reg.GetVal: the truncation that the constraint library applies to values wider than a field is not modelled; the lemmas are about values that fit.
- Immediate.InstrImm.SetImmLen: the overrides for compressed and bit-manipulation instructions; the lemmas hold for any length below 32.
- The pygen call-stack generator, load/store alignment, opcode tables, coverage, file and subprocess plumbing, and the RTL itself.
