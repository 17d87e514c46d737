# rvemu, verified

This project models the core of rvemu, an RV32IM user-mode emulator with cache,
branch-predictor and cycle-cost models, and proves what its parts are for.  Verify it
with `dafny verify dfyconfig.toml` (Dafny 4.11).

Code that works in place is modelled in place: the register file, the guest memory,
the engine, the caches, the predictor, the analyzer, the session, the debugger, the
loader and the benchmark workloads are classes or methods that update fields and
arrays, each proved against a specification function.  Decoding, arithmetic and
encoding, which the source writes as expressions, are functions.  Words are integers
with explicit bounds and explicit wrap-around; bit operations are defined bit by bit
and lemmas say what each idiom computes.

| file | what it holds |
|---|---|
| `Words.dfy` | machine words, bit operations, and their arithmetic meaning |
| `Memory.dfy`, `CpuState.dfy` | byte memory and register file, updated in place |
| `Instruction.dfy`, `Encoding.dfy` | the decoder, the encoders, and their round trips |
| `Isa.dfy` | reference: RV32IM over mathematical integers |
| `EngineArithmetic.dfy`, `ExecutionEngine.dfy`, `Runs.dfy` | the engine, its refinement of the reference, facts about whole runs |
| `MachineLaws.dfy` | the instruction set as laws of one step, in the numbers of the instruction word |
| `Recency.dfy`, `CacheModel.dfy` | the theory of LRU lists, and the caches that refine it |
| `BranchPredictor.dfy`, `CycleEstimator.dfy`, `PerformanceAnalyzer.dfy` | the other observers |
| `ObserverLaws.dfy` | what the observers count, as sets of positions of the trace |
| `ProgramSession.dfy`, `Debugger.dfy` | bounded runs, breakpoints, and the command loop |
| `SessionLaws.dfy`, `DebuggerLaws.dfy` | what steps, runs and commands mean, on registers, positions and breakpoint sets |
| `ElfLoader.dfy`, `Stack.dfy` | program loading and stack placement |
| `LoaderLaws.dfy` | the ELF32 format by a writer of its own, and loading in terms of the file's bytes |
| `Programs.dfy`, `IntegerMix.dfy`, `MemoryStride.dfy`, `BranchPattern.dfy`, `Workload.dfy`, `WorkloadLaws.dfy` | the benchmark guests, proved for every run length |

The modules named Laws state results in plain numbers, divisions and sets, so that they hold
the specification functions themselves to their meaning.

The reference semantics in `Isa.dfy` follows the RISC-V Unprivileged ISA (20191213):
section 2.3 (immediate encodings), 2.4 (integer computation), 2.5 (control transfer),
2.6 (loads and stores), 7.1 (multiplication) and 7.2 (division).

Main results:

- one engine step is one step of the reference, and traps change nothing; every
  instruction's encoding, result, target, trap and memory bytes are laws in the numbers
  of its word, and calls return;
- an LRU access hits exactly when an earlier address lies in its line and fewer than
  `associativity` distinct other lines of its set were accessed since, and more ways
  never cause more misses;
- no sequence of debugger commands changes what the guest does compared with one
  uninterrupted run;
- the loader's one-pass check accepts exactly the tables whose segments are sorted,
  pairwise disjoint and in bounds, and memory then holds exactly the declared image;
  files written in the ELF32 layout are read back record by record;
- a guest that would come to a breakpoint within the budget is stopped by a continue no
  later than there, and run counters are the numbers of steps they stand for;
- words with a major opcode and canonical decoded records are in bijection;
- each predictor slot mispredicts at most two plus twice its minority outcomes;
- the benchmark guests never trap, MemoryStride computes its closed form, BranchPattern
  mispredicts exactly 129 p + 1 times in p whole passes, and all three have exact miss
  counts and cycle estimates: n + 10 after n instructions of IntegerMix, 1287 p + 335
  and 1799 p + 15 after p whole passes of MemoryStride and BranchPattern.

Observers are attached to the engine in the source; here the engine appends every
observation to a recorded trace, and the trace is what the analyzer is given.
Ghost histories in the observers are the traces seen since construction or reset, and
every reported number is a function of that history; a reset observer is therefore
indistinguishable from a new one.  Theorems about the benchmark guests start from any
machine meeting `Programs.Starts`; the constructor of `BenchmarkWorkload` builds one.

## Model

| member | source | states |
|---|---|---|
| Words.MaskIs | src/branch_predictor.cpp:183-188 | masking with a power of two minus one is reduction modulo it |
| Words.MaskHigh | src/stack.cpp:63-66 | masking with the complement of a power of two minus one subtracts the remainder |
| Words.OrIsAdd | src/memory.cpp:99-107 | or-ing a value below a shifted one is addition |
| Words.XorTopBit | src/execution_engine.cpp:13-18 | xor with a power of two flips the top bit of a value one bit wider |
| Words.PowerOfTwoTest | src/cache_model.cpp:13-16 | for a positive v, v and v-1 share no bit exactly when v is a power of two |
| Words.BitAndBits | src/execution_engine.cpp:33-66 | the and of two numbers has exactly the bits both have |
| Words.BitOrBits | src/execution_engine.cpp:33-66 | the or of two numbers has exactly the bits either has |
| Words.BitXorBits | src/execution_engine.cpp:33-66 | the xor of two numbers has exactly the bits one of them has |
| GuestMemory.ToBytesRoundTrip | src/memory.cpp:127-135 | bytes written low first and read back give the value modulo its width |
| GuestMemory.StoreThenLoad | src/memory.cpp:115-135 | a stored value is loaded back, truncated to its width, and every other byte is kept |
| GuestMemory.StoreKeepsDisjointLoads | src/memory.cpp:115-135 | a store leaves loads of disjoint ranges as they were |
| GuestMemory.MapRegion | src/memory.cpp:28-37 | a region is created, zero filled, exactly when it ends within the 32-bit space |
| GuestMemory.Memory.CheckedOffset | src/memory.cpp:139-156 | an access is in bounds exactly when base <= address and address + width <= end over the integers, so no wrap-around slips through |
| GuestMemory.Memory.Read16 | src/memory.cpp:90-97 | an aligned little-endian load of the contents, or the misalignment or bounds error, in that order |
| GuestMemory.Memory.Read32 | src/memory.cpp:99-107 | an aligned little-endian load of the contents, or the misalignment or bounds error, in that order |
| GuestMemory.Memory.ReadSpan | src/memory.cpp:109-113 | exactly the mapped ranges succeed, with their bytes; every other request is the bounds error with its address and width |
| GuestMemory.Memory.Write8 | src/memory.cpp:115-117 | the contents become the reference store, or are untouched and the bounds error is reported |
| GuestMemory.Memory.Write16 | src/memory.cpp:119-125 | the contents become the reference store, or are untouched and the error is reported |
| GuestMemory.Memory.Write32 | src/memory.cpp:127-135 | the contents become the reference store, or are untouched and the error is reported |
| GuestMemory.Memory.Clear | src/memory.cpp:137 | every byte becomes zero |
| GuestMemory.Memory.Read8 | src/memory.cpp:86-88 | the byte at a mapped address, or the bounds error |
| MachineLaws.LoadIs | src/memory.cpp:86-107 | loads of 1, 2 and 4 bytes: exactly when they succeed, the little-endian sum of the bytes, and the error otherwise |
| MachineLaws.StoreIs | src/memory.cpp:115-135 | stores of 1, 2 and 4 bytes: exactly when they succeed, each byte written, every other kept, and the error otherwise |
| Cpu.CpuState.ReadRegister | src/cpu_state.cpp:8-14 | registers read back, x0 as zero, out-of-range indices rejected |
| Cpu.CpuState.WriteRegister | src/cpu_state.cpp:16-21 | exactly one register changes, writes to x0 are discarded, out-of-range indices rejected |
| Cpu.CpuState.AdvanceProgramCounter | src/cpu_state.cpp:31-33 | the PC advances modulo 2^32 |
| Cpu.CpuState.Reset | src/cpu_state.cpp:35-38 | all registers and the PC become zero |
| Instructions.SignExtendMeaning | src/instruction.cpp:15-21 | for every word, mask, xor and subtract is two's-complement extension of its low bits, at every width up to 31 |
| Instructions.DecodeMeaning | src/instruction.cpp:23-142 | decoding succeeds on exactly the eleven major opcodes, and every field and immediate is the one section 2.3 gives |
| Instructions.DecodeOpcode | src/instruction.cpp:23-51 | succeeds exactly on the eleven opcode values |
| MachineLaws.DecodedFields | src/instruction.cpp:79-142 | every record field by field, for each of the eleven numeric opcodes: fields as divisions of the word, the format, and which immediate; every other word is undecodable |
| MachineLaws.ImmediateWords | src/instruction.cpp:99-129 | the I, S and U immediates as divisions of the word, with their sign |
| MachineLaws.BranchOffsetWord | src/instruction.cpp:115-125 | the branch offset's five fragments, weighed and signed |
| MachineLaws.JumpOffsetWord | src/instruction.cpp:130-138 | the jump offset's four fragments, weighed and signed |
| Isa.TruncatedDivisionUnique | src/execution_engine.cpp:104-122 | the reference quotient and remainder are the only ones that rebuild the dividend with a smaller remainder of its sign |
| EngineArithmetic.SignedLessThanMeaning | src/execution_engine.cpp:13-18 | the sign-biased unsigned comparison is the signed order |
| EngineArithmetic.ArithmeticShiftMeaning | src/execution_engine.cpp:20-31 | shifting with the fill mask is floor division of the signed value |
| EngineArithmetic.SignedProductMeaning | src/execution_engine.cpp:83-97 | sign-and-magnitude multiplication gives the 64-bit two's-complement product |
| EngineArithmetic.SignedDivideMeaning | src/execution_engine.cpp:104-122 | magnitude division with restored signs rounds toward zero, including the overflowing quotient |
| EngineArithmetic.MultiplyMeaning | src/execution_engine.cpp:124-155 | all eight M instructions return the reference result for all operands, division by zero included |
| EngineArithmetic.OpMeaning | src/execution_engine.cpp:157-216 | every supported register encoding computes the reference result and every other is rejected |
| EngineArithmetic.OpImmediateMeaning | src/execution_engine.cpp:33-66 | every supported immediate encoding computes the reference result and every other is rejected |
| EngineArithmetic.BranchMeaning | src/execution_engine.cpp:218-237 | each branch condition is the reference comparison, the two unused encodings are rejected |
| EngineArithmetic.SignExtendByteMeaning | src/execution_engine.cpp:260-264 | the or with the high mask is sign extension of a byte |
| EngineArithmetic.SignExtendHalfwordMeaning | src/execution_engine.cpp:266-270 | the or with the high mask is sign extension of a halfword |
| Engine.ExecutionEngine.ExecuteLoad | src/execution_engine.cpp:279-303 | a load returns the reference value with its extension, or the right trap |
| Engine.ExecutionEngine.ExecuteStore | src/execution_engine.cpp:305-330 | a store writes exactly the reference bytes, or nothing and the right trap |
| Engine.ExecutionEngine.Step | src/execution_engine.cpp:338-495 | one step is the reference step: same next machine, same report; a trap changes nothing and emits no observation |
| Engine.ExecutionEngine.Run | src/execution_engine.cpp:497-505 | a run is that many untrapped reference steps with their observations, ended by the limit or by the trap of the next one |
| MachineLaws.FetchTraps | src/execution_engine.cpp:339-351 | a PC that is no word address, or whose word is not mapped, traps with its cause and the PC, and changes nothing |
| MachineLaws.RegisterEncodings | src/execution_engine.cpp:379-384 | opcode 0x33 exists for function codes 0, 1 and, for subtract and arithmetic shift, 0x20; those retire to pc + 4 changing only rd, all others trap as illegal with the word |
| MachineLaws.BaseResults | src/execution_engine.cpp:157-216 | sum, left shift, signed and unsigned order, xor, right shift, or and and, each by its function code, as arithmetic or bit by bit |
| MachineLaws.AlternateResults | src/execution_engine.cpp:157-216 | code 0x20: the difference that adding the second operand undoes, and the shift that floors the signed value |
| MachineLaws.MultiplyResults | src/execution_engine.cpp:124-155 | the low word and the three high words of the exact products |
| MachineLaws.DivideResults | src/execution_engine.cpp:104-155 | signed quotients round toward zero; by zero all ones; the overflowing one is the dividend |
| MachineLaws.RemainderResults | src/execution_engine.cpp:104-155 | signed remainders are smaller than the divisor and take the dividend's sign; by zero the dividend; overflowing zero |
| MachineLaws.UnsignedResults | src/execution_engine.cpp:124-155 | unsigned quotient and remainder, by zero included |
| MachineLaws.ImmediateEncodings | src/execution_engine.cpp:374-378 | opcode 0x13 exists for every function code, shifts only with known upper bits; others trap as illegal |
| MachineLaws.ImmediateResults | src/execution_engine.cpp:33-66 | the six immediate results on the sign-extended twelve bits |
| MachineLaws.ImmediateShifts | src/execution_engine.cpp:33-66 | the three shifts by the amount in bits 24 to 20 |
| MachineLaws.UpperResults | src/execution_engine.cpp:366-373 | LUI leaves the upper twenty bits of the word, AUIPC adds them to the PC |
| MachineLaws.JumpAndLink | src/execution_engine.cpp:385-395 | JAL goes to pc plus its offset and leaves pc + 4 in rd, or traps with a misaligned target |
| MachineLaws.JumpAndLinkRegister | src/execution_engine.cpp:396-412 | JALR with function code 0 goes to rs1 plus offset with the lowest bit clear and leaves pc + 4 in rd, or traps; other codes are illegal |
| MachineLaws.CallReturns | src/execution_engine.cpp:385-412 | a completed call leaves pc + 4 in rd, and jalr x0, 0(rd) at its target comes back there with registers and memory as the call left them |
| MachineLaws.CallExample | src/execution_engine.cpp:385-412 | jal x1, 16 at 0x1000 gives x1 = 0x1004 and, with the return at its target, comes back to 0x1004 |
| MachineLaws.BranchResults | src/execution_engine.cpp:413-431 | the six conditions by function code, target or pc + 4, the misaligned taken target, and the two illegal codes |
| MachineLaws.LoadOutcomes | src/execution_engine.cpp:432-446 | which loads exist, where they read, and the three ways they trap, with cause and value |
| MachineLaws.LoadResults | src/execution_engine.cpp:260-303 | the register after each load: top bit of the byte or halfword spread, zeros above, or the whole word, from the bytes themselves |
| MachineLaws.StoreOutcomes | src/execution_engine.cpp:447-461 | which stores exist, where they write, how they trap, and every byte of memory after them |
| MachineLaws.SystemWords | src/execution_engine.cpp:462-481 | fences advance, ecall and ebreak trap with their causes and value 0, all remaining words are illegal |
| MachineLaws.ObservedInstruction | src/execution_engine.cpp:487-489 | a completed step reports the decoded record of the word it fetched |
| Runs.StepKeepsAligned | src/execution_engine.cpp:338-431 | from an aligned PC a fetch is never misaligned, the next PC is aligned, and a misaligned-target trap is of a control transfer, 2 modulo 4 |
| Runs.ReachableAligned | src/program_session.cpp:30-56 | the same in every state reached by any mix of engine and session steps |
| Runs.StepFrame | src/execution_engine.cpp:432-494 | a retired instruction changes at most one register, never x0, and only the bytes of the store it reports |
| Runs.ObservedInOneLine | src/execution_engine.cpp:432-461 | every reported fetch and data access lies in one cache line, for every valid line size |
| Runs.TraceInSingleLines | src/cache_model.cpp:169-184 | every observation of a run needs one lookup per access only |
| Runs.ObservationsChain | src/execution_engine.cpp:487-493 | each observation of a run names the next one's program counter |
| Recency.SetIsMostRecent | src/cache_model.cpp:117-140 | what a set holds is the front of the list of its blocks, most recently used first, each once |
| Recency.HitsByReuseDistance | src/cache_model.cpp:108-146 | an access hits exactly when its block was used before and fewer than associativity distinct other blocks of its set since |
| Recency.HitsByAddress | src/cache_model.cpp:108-146 | the reuse-distance law over addresses: an access hits exactly when some earlier access was to the same line and fewer than associativity distinct other lines of its set were accessed since |
| Recency.MissesAre | src/cache_model.cpp:142-145 | misses count the positions of the history that do not hit |
| Recency.Inclusion | src/cache_model.cpp:117-145 | a set with fewer ways holds the front of the same set with more ways |
| Recency.MoreWaysNeverMissMore | src/cache_model.cpp:117-145 | every hit with fewer ways is a hit with more, and more ways never miss more |
| Recency.OnlyCompulsoryMisses | src/cache_model.cpp:108-146 | if no set is asked for more distinct blocks than it has ways, misses are the distinct blocks |
| CacheModel.ConfigurationAccepted | src/cache_model.cpp:18-45 | a configuration is accepted exactly when it is a valid geometry |
| ObserverLaws.CacheErrors | src/cache_model.cpp:18-45 | which error each rejected configuration gets, with the product and the power of two written out |
| CacheModel.Geometry | src/cache_model.cpp:47-57 | the set count is positive and sets times ways is the number of lines |
| CacheModel.TagLookup | src/cache_model.cpp:117-129 | comparing tags finds a block's recency position, and a miss selects the first free way |
| CacheModel.ShiftLayout | src/cache_model.cpp:131-140 | the in-place shift turns a laid-out recency list into the touched one and leaves other sets alone |
| CacheModel.MakeCache | src/cache_model.cpp:100-106 | a cache is built, empty, exactly for valid geometries; otherwise the first error is reported |
| CacheModel.SetAssociativeCache.FindWay | src/cache_model.cpp:117-129 | the way holding the tag, or else the first invalid way, or else none |
| CacheModel.SetAssociativeCache.Access | src/cache_model.cpp:108-146 | the result is a hit exactly when an earlier address lies in the same line and fewer than associativity distinct other lines of its set were accessed since, with lines as divisions by the line size; lines and counters stay those of the extended history |
| ObserverLaws.SameLine | src/cache_model.cpp:110-111 | two addresses share a block exactly when they lie in the same aligned run of line-size bytes |
| ObserverLaws.CacheCounts | src/cache_model.cpp:108-146 | the three counters: accesses are the addresses, and misses the positions where every earlier access to the line is followed by associativity distinct other lines of its set |
| CacheModel.SetAssociativeCache.Reset | src/cache_model.cpp:148-151 | lines and counters become those of the empty history |
| CacheModel.CachesInclude | src/cache_model.cpp:117-145 | of two caches with equal sets and history, the one with fewer ways holds the first lines of every set of the other, and has missed at least as often |
| CacheModel.AccessInOneLine | src/cache_model.cpp:24-29 | an aligned access of up to four bytes stays in one line of any power-of-two size from four |
| CacheModel.LoadsAndStoresAddUp | src/cache_model.cpp:169-184 | load and store accesses and misses add up to the data cache's |
| ObserverLaws.FetchBlocksAre | src/cache_model.cpp:169-172 | the i-th fetched block is the i-th program counter divided by the line size |
| ObserverLaws.DataBlocksAre | src/cache_model.cpp:173-178 | each load or store appends its address divided by the line size, other instructions nothing |
| ObserverLaws.KindAccessesAre | src/cache_model.cpp:179-183 | load and store accesses count the observations of that kind |
| ObserverLaws.KindMissesAre | src/cache_model.cpp:179-183 | load and store misses count the observations of that kind at which the data cache misses |
| CacheModel.SplitCacheModel.Observe | src/cache_model.cpp:169-184 | the instruction cache is asked for the PC, the data cache for the access's address if there is one, and the load and store counters follow the extended trace |
| CacheModel.SplitCacheModel.Reset | src/cache_model.cpp:186-191 | everything becomes that of the empty trace |
| BranchPrediction.PredictorAccepted | src/branch_predictor.cpp:23-47 | accepted exactly with a valid counter and a power-of-two table for bimodal, no table otherwise |
| ObserverLaws.PredictorErrors | src/branch_predictor.cpp:23-47 | which error each rejected configuration gets |
| BranchPrediction.TableIndexMeaning | src/branch_predictor.cpp:183-188 | the masked index is the word address modulo the table size |
| BranchPrediction.AmortisedBound | src/branch_predictor.cpp:163-181 | mispredictions plus the counter's remaining distance are bounded by twice either outcome's count |
| BranchPrediction.SlotBound | src/branch_predictor.cpp:163-181 | a counter mispredicts at most two plus twice the rarer outcome |
| BranchPrediction.IncorrectIsSlotTotal | src/branch_predictor.cpp:103-131 | the table behaves as independent counters: the total is the sum over slots of what each mispredicts on its own branches |
| BranchPrediction.IncorrectBound | src/branch_predictor.cpp:103-131 | for every trace the mispredictions are bounded by the slots' rarer outcomes |
| ObserverLaws.BranchesAre | src/branch_predictor.cpp:103-112 | the history gains exactly the conditional branches, with their PC and outcome |
| ObserverLaws.StaticStrategies | src/branch_predictor.cpp:151-155 | always-taken is wrong exactly on the branches not taken and never predicts not taken; always-not-taken the other way round |
| ObserverLaws.BimodalStrategy | src/branch_predictor.cpp:156-181 | the prediction is counter 2 or 3 of slot pc / 4 modulo the table size; each outcome of the slot moves its counter one step between 0 and 3, others leave it |
| ObserverLaws.Hysteresis | src/branch_predictor.cpp:163-181 | two equal outcomes fix the slot's next prediction, and one contrary outcome never turns a saturated counter |
| ObserverLaws.PredictionCounts | src/branch_predictor.cpp:113-128 | the seven counters as cardinalities of sets of positions |
| BranchPrediction.MakePredictor | src/branch_predictor.cpp:96-101 | a predictor is built exactly for valid configurations |
| BranchPrediction.BranchPredictorModel.Predict | src/branch_predictor.cpp:149-161 | the prediction is the strategy's on the history seen so far |
| BranchPrediction.BranchPredictorModel.Update | src/branch_predictor.cpp:163-181 | the counter at pc / 4 modulo the table size steps up below 3 or down above 0, all others and every static strategy's table are kept |
| BranchPrediction.BranchPredictorModel.Observe | src/branch_predictor.cpp:103-131 | counters and all seven statistics stay those of the extended trace; other instructions change nothing |
| BranchPrediction.BranchPredictorModel.Reset | src/branch_predictor.cpp:133-138 | counters and statistics become those of the empty trace |
| CycleEstimation.CheckedMultiply | src/cycle_estimator.cpp:11-18 | the product exactly when it fits 64 bits |
| CycleEstimation.CheckedAdd | src/cycle_estimator.cpp:20-27 | the sum exactly when it fits 64 bits, otherwise the total is unchanged |
| CycleEstimation.CycleEstimator.Estimate | src/cycle_estimator.cpp:81-131 | exactly the four products and their sum whenever they fit 64 bits; a failure names the first product, or the sum, that does not |
| CycleEstimation.TotalAtMost | src/cycle_estimator.cpp:118-125 | the total is at most instructions times the sum of the four costs |
| Performance.CountsConserved | src/performance_analyzer.cpp:15-38 | below 2^64 observations every pair of counters adds up to its total and no count is lost |
| ObserverLaws.ReportedFields | src/performance_analyzer.cpp:33-38 | which cache, trace and geometry each reported number comes from, loads and stores as counts of observations |
| Performance.EstimateFits | src/performance_analyzer.cpp:40-47 | the estimate cannot overflow while observations times the sum of costs is below 2^64 |
| Performance.MakeAnalyzer | src/performance_analyzer.cpp:7-13 | an analyzer is built exactly for usable configurations, otherwise the first error is reported |
| Performance.PerformanceAnalyzer.Observe | src/performance_analyzer.cpp:15-20 | all models and the instruction count follow the extended trace |
| Performance.PerformanceAnalyzer.Reset | src/performance_analyzer.cpp:22-26 | all models and the count become those of the empty trace |
| Performance.PerformanceAnalyzer.Statistics | src/performance_analyzer.cpp:33-38 | every reported number is the specified function of the trace |
| Performance.PerformanceAnalyzer.EstimateCycles | src/performance_analyzer.cpp:40-47 | the exact components and sum of the trace's integer cost whenever they fit 64 bits, and otherwise the first component that does not |
| Sessions.ProgramSession.CaptureEnvironmentCall | src/program_session.cpp:94-104 | the call number is register 17 and the six arguments are registers 10 to 15, with the PC of the call |
| Sessions.ProgramSession.Step | src/program_session.cpp:30-56 | an engine step; an environment call hands the handler registers 17 and 10 to 15, and a resumed guest has the value in register 10, every other register and memory kept and the PC 4 on; exits, unhandled calls and traps change nothing |
| SessionLaws.CallsAre | src/program_session.cpp:36-56 | what the handler is given and what each of its three decisions does, on registers, PC and memory |
| Sessions.ProgramSession.Run | src/program_session.cpp:58-92 | a bounded run returns the state, statistics and reason its specification gives |
| Sessions.KeepsRunningMeans | src/program_session.cpp:66-75 | a guest keeps running for n steps exactly when each of them retires an instruction or resumes a handled call |
| Sessions.RunMeaning | src/program_session.cpp:58-92 | a run follows the guest step by step, meets no breakpoint before it stops, and stops for the reason it reports |
| SessionLaws.RunIs | src/program_session.cpp:58-92 | every run by positions: instructions retired count the completed steps, calls handled the resumed ones and an exit; no earlier state stood on a breakpoint; and it stopped for what the last position brought |
| SessionLaws.StepsCounted | src/program_session.cpp:69-78 | over n running steps retired and handled count which steps completed or resumed, and the trace grew by the retired ones |
| Sessions.RunCut | src/program_session.cpp:58-92 | a run can be cut after any number of running, breakpoint-free steps |
| Sessions.RunsCompose | src/program_session.cpp:58-92 | a run that reached its limit, continued, is the longer run with summed statistics |
| Sessions.BreakpointsDoNotDisturb | src/program_session.cpp:58-92 | a run not stopped by a breakpoint is the run without breakpoints |
| Sessions.RunOf | src/program_session.cpp:58-92 | in every result guest steps are retired instructions plus handled calls and never exceed the limit |
| Sessions.GuestAfterAdds | src/program_session.cpp:58-92 | running a and then b steps is running a + b steps |
| Debugging.BreakpointSet | app/rvemu_debugger.cpp:378-418 | sorted insertion adds one element, erasure removes one, and both keep the vector strictly sorted |
| DebuggerLaws.BreakIs | app/rvemu_debugger.cpp:378-401 | the command adds exactly its address, when aligned and mapped, keeps the order and touches nothing else |
| DebuggerLaws.DeleteIs | app/rvemu_debugger.cpp:403-418 | the command removes exactly its address and forgets a stop at it |
| DebuggerLaws.CommandsAre | app/rvemu_debugger.cpp:136-232 | deleting all, inspecting, quitting, and the single step: within the budget exactly one guest step with its counts |
| DebuggerLaws.BreakThenContinue | app/rvemu_debugger.cpp:265-291 | when the guest would come to an address within the budget, after setting a breakpoint there a continue stops at a breakpoint no later than that arrival, having passed none |
| DebuggerLaws.InteractionIs | app/rvemu_debugger.cpp:107-135 | commands are obeyed in order until one ends the session; the end of input quits |
| Debugging.ObeyingKeepsValid | app/rvemu_debugger.cpp:234-418 | every command keeps breakpoints sorted, aligned and mapped, the budget kept, and the stop flag true only on a breakpoint |
| Debugging.ObeyingFollows | app/rvemu_debugger.cpp:136-312 | one command leaves the guest on its uninterrupted course or ends with the plain run's result |
| Debugging.DebuggerRefinesRun | app/rvemu_debugger.cpp:107-232 | for any command sequence, a finished session has the state, statistics and reason of one uninterrupted run to the budget, and a quit stands exactly its reported steps in, every one of which continued |
| Debugging.ContinueHaltsAtFirstBreakpoint | app/rvemu_debugger.cpp:265-291 | a continue halts at the first state with its PC in the set, at least one step on after a breakpoint stop |
| Debugging.ContinuesMakeProgress | app/rvemu_debugger.cpp:265-291 | two successive continues that do not end the session take at least one step |
| Debugging.InteractiveDebugger.ExecuteOne | app/rvemu_debugger.cpp:234-263 | one session step with its statistics and the stop flag cleared |
| Debugging.InteractiveDebugger.ContinueExecution | app/rvemu_debugger.cpp:265-312 | steps off a breakpoint stop, then runs on within the remaining budget |
| Debugging.InteractiveDebugger.AddBreakpoint | app/rvemu_debugger.cpp:378-401 | afterwards an address is a breakpoint exactly when it was one before or is the given one, word aligned with its whole word mapped; the vector stays sorted |
| Debugging.InteractiveDebugger.RemoveBreakpoint | app/rvemu_debugger.cpp:403-418 | afterwards an address is a breakpoint exactly when it was one and is not the given one; the stop flag is cleared when that was a breakpoint at the PC |
| Debugging.InteractiveDebugger.Run | app/rvemu_debugger.cpp:107-232 | the command loop is the specified interaction; the end of input quits |
| Debugging.LowerBound | app/rvemu_debugger.cpp:391-407 | everything before the position is below the address and nothing from it on is |
| Debugging.InteractiveDebugger.AddStatistics | app/rvemu_debugger.cpp:73-78 | the three counters are added as 64-bit words |
| Debugging.InteractiveDebugger.constructor | app/rvemu_debugger.cpp:99-105 | a new debugger has no breakpoints or steps and follows the guest from where it stands |
| ElfLoading.ReadU16 | src/elf_loader.cpp:36-41 | the little-endian number at an offset |
| ElfLoading.ReadU32 | src/elf_loader.cpp:43-49 | the little-endian number at an offset |
| ElfLoading.RangeFits | src/elf_loader.cpp:51-55 | the overflow-free test is offset plus size within the limit |
| LoaderLaws.HeaderBytes | src/elf_loader.cpp:142-199 | the file header is sound exactly when these bytes hold these values: magic, class, byte order, versions, ABI, type 2, machine 243, sizes, and a table inside the file |
| LoaderLaws.HeaderDefects | src/elf_loader.cpp:142-199 | the header error is the first failing condition on the bytes, in order |
| LoaderLaws.HeaderFields | src/elf_loader.cpp:160-230 | entry point, header count, and each field of header i as the bytes at the table offset plus 32 i |
| LoaderLaws.ReadBack | src/elf_loader.cpp:142-230 | round trip: a file written from an entry point and records in ELF32 order, physical addresses included, is read back as that entry point and those records |
| LoaderLaws.AdmissibleIs | src/elf_loader.cpp:206-276 | an admissible table, header by header and pair by pair, in the headers' own fields |
| LoaderLaws.DefectIs | src/elf_loader.cpp:206-268 | the error of a header is the first failing condition on it and the load segments before it |
| LoaderLaws.RejectionIs | src/elf_loader.cpp:278-301 | after the table: nothing to load, then a misaligned entry, then an entry outside every executable segment |
| ElfLoading.PowerOfTwo | src/elf_loader.cpp:57-60 | true exactly on powers of two |
| ElfLoading.RunningComparisons | src/elf_loader.cpp:236-268 | comparing with the last address and the last nonempty end is comparing with every earlier segment |
| ElfLoading.CheckHeader | src/elf_loader.cpp:212-276 | one header is rejected exactly with the error stated against all earlier segments |
| ElfLoading.CheckTable | src/elf_loader.cpp:201-276 | the pass reports the first defective header, or the table's segments with their running ends |
| ElfLoading.TableAccepted | src/elf_loader.cpp:206-276 | the pass accepts exactly the tables with sound, sorted, pairwise disjoint segments, and else names the first header that spoils its prefix |
| ElfLoading.LoadableExactly | src/elf_loader.cpp:140-301 | a file loads exactly when its headers are sound, its table admissible, and its entry aligned inside an executable segment |
| ElfLoading.PlacedImage | src/elf_loader.cpp:303-317 | writing disjoint segments one after another leaves every covered byte as declared and every other as it was |
| LoaderLaws.ImageIs | src/elf_loader.cpp:303-317 | each address of a load header holds the file's byte at that distance from its offset, zero past its file size, and every other byte is as it was |
| LoaderLaws.TotalsAre | src/elf_loader.cpp:303-323 | the reported file bytes are the number of addresses filled from the file, file and zero bytes together the number covered, and the envelope their first and last |
| ElfLoading.WriteSegment | src/elf_loader.cpp:305-314 | file bytes then zeros, every write in bounds |
| ElfLoading.WriteSegments | src/elf_loader.cpp:303-317 | all segments are placed, and file and zero bytes are summed |
| ElfLoading.TracksExtend | src/elf_loader.cpp:259-275 | the running ends stay the tightest hull, and the sizes so far fit in it |
| ElfLoading.LoadElf32 | src/elf_loader.cpp:140-324 | on failure nothing changes and the rejection is reported; on success memory holds exactly the declared image, the PC is the number at bytes 24 to 27, and totals and envelope are those of the segments |
| StackPlacement.HighestBlock | src/stack.cpp:63-74 | the block tried fits above a floor exactly when any aligned block does |
| StackPlacement.InitializeFreestandingStack | src/stack.cpp:37-81 | the block tried is the highest 16-byte aligned one below the end of memory; it succeeds exactly when that clears the image, register 2 becomes its top modulo 2^32 and nothing else changes; each error by its condition |
| StackPlacement.EnvelopeInsideMemory | src/elf_loader.cpp:259-272 | the envelope a load reports lies inside the mapped memory |
| StackPlacement.PrepareProgram | app/rvemu_cli.cpp:121-139 | a rejected file leaves CPU and memory unchanged; after a load the occupied range is always valid, a failed placement keeps every register, and a placed stack is an aligned block inside memory clear of every segment, with only x2 changed |
| Encoding.DecodeOfEncode | src/instruction.cpp:79-142 | decoding the word of a canonical record gives that record back |
| Encoding.EncodeOfDecode | src/instruction.cpp:79-142 | re-encoding what any word with a major opcode decodes to gives that word back |
| Encoding.EncodeImmediateOperationMeaning | benchmarks/benchmark_workload.cpp:26-34 | the word decodes to the given registers, function and every in-range immediate |
| Encoding.EncodeRegisterOperationMeaning | benchmarks/benchmark_workload.cpp:36-46 | the word decodes to the given registers and function fields |
| Encoding.EncodeLoadWordMeaning | benchmarks/benchmark_workload.cpp:48-55 | the word decodes to a word load with every in-range offset |
| Encoding.EncodeStoreWordMeaning | benchmarks/benchmark_workload.cpp:57-67 | the word decodes to a word store with every in-range offset |
| Encoding.EncodeBranchMeaning | benchmarks/benchmark_workload.cpp:69-82 | the word decodes to the branch with every in-range even offset |
| Encoding.EncodeJumpMeaning | benchmarks/benchmark_workload.cpp:84-93 | the word decodes to the jump with every in-range even offset |
| Encoding.EncodeLuiMeaning | benchmarks/benchmark_workload.cpp:95-101 | the word decodes to a load-upper of the immediate's upper twenty bits |
| Programs.ImmediateOperationDenotes | benchmarks/benchmark_workload.cpp:26-34 | for every function code and in-range immediate the word means the operation the reference selects, shifts included, or is unsupported there too |
| Programs.RegisterOperationDenotes | benchmarks/benchmark_workload.cpp:36-46 | the encoded word means the reference's register operation |
| Programs.LoadWordDenotes | benchmarks/benchmark_workload.cpp:48-55 | the encoded word means the reference's word load |
| Programs.StoreWordDenotes | benchmarks/benchmark_workload.cpp:57-67 | the encoded word means the reference's word store |
| Programs.BranchDenotes | benchmarks/benchmark_workload.cpp:69-82 | the encoded word means the reference's branch |
| Programs.JumpDenotes | benchmarks/benchmark_workload.cpp:84-93 | the encoded word means the reference's jump |
| Programs.LuiDenotes | benchmarks/benchmark_workload.cpp:95-101 | for every immediate the word loads it with the low twelve bits cleared |
| Mix.RunsForever | benchmarks/benchmark_workload.cpp:103-111 | IntegerMix never traps or changes memory, and its registers are a closed form of the instruction count |
| Mix.MixTrace | benchmarks/benchmark_workload.cpp:103-111 | IntegerMix fetches from one line, never accesses data and never branches conditionally |
| Stride.RunsForever | benchmarks/benchmark_workload.cpp:113-121 | MemoryStride never traps, for any instruction limit |
| Stride.StrideResult | benchmarks/benchmark_workload.cpp:113-121 | after t store iterations word i holds t / 256, plus one if i is below t mod 256, modulo 2^32, and all other memory is unchanged |
| Stride.VisitsAre | benchmarks/benchmark_workload.cpp:113-121 | that closed form is the number of j below t with j mod 256 = i |
| Stride.WholePasses | benchmarks/benchmark_workload.cpp:113-121 | after p passes of 1282 instructions every word is p modulo 2^32 |
| Stride.StrideMisses | benchmarks/benchmark_workload.cpp:156-165 | one instruction-cache miss once anything ran, and after b word loads exactly min(16, (b + 15) / 16) data-cache misses |
| Stride.TallyAt | benchmarks/benchmark_workload.cpp:113-121 | the loop branch's counter and the misprediction count after every number of instructions |
| Stride.WithinPass | benchmarks/benchmark_workload.cpp:113-121 | iteration j of pass p starts after 1282 p + 5 j instructions |
| Pattern.RunsForever | benchmarks/benchmark_workload.cpp:123-131 | BranchPattern never traps, for any instruction limit |
| Pattern.TallyAt | benchmarks/benchmark_workload.cpp:123-131 | both branch counters and the misprediction count after every number of instructions |
| Pattern.ExactMispredictions | benchmarks/benchmark_workload.cpp:123-131 | after p >= 1 passes of 1154 instructions exactly 129 p + 1 mispredictions |
| Pattern.IterationAt | benchmarks/benchmark_workload.cpp:123-131 | iteration v of pass q starts after 1154 q + 4 v + (v + 1) / 2 instructions |
| Workloads.LoadProgram | benchmarks/benchmark_workload.cpp:133-140 | on any memory, succeeds exactly when the program's range is mapped; its words are then in memory; nothing outside the range ever changes |
| Workloads.NeverTraps | benchmarks/benchmark_workload.cpp:199-202 | no workload traps after any number of instructions |
| Workloads.ConfigurationIsUsable | benchmarks/benchmark_workload.cpp:156-165 | the benchmark configuration is accepted by every model, with 32 sets per cache |
| WorkloadLaws.ProgramWords | benchmarks/benchmark_workload.cpp:103-131 | the three programs as the words in memory |
| WorkloadLaws.StartIs | benchmarks/benchmark_workload.cpp:133-140 | a reset guest has its PC at 0x1000 and memory holding its words followed by zeros |
| WorkloadLaws.RegistersAre | benchmarks/benchmark_workload.cpp:182-196 | the registers each guest starts with |
| Workloads.MixStatistics | benchmarks/benchmark_workload.cpp:216-218 | after any n >= 1 instructions of IntegerMix: 1 instruction miss, no data miss, no prediction |
| Workloads.MixCycles | benchmarks/benchmark_workload.cpp:220-222 | IntegerMix's estimate after n >= 1 instructions is exactly n + 10 cycles |
| Workloads.StrideStatistics | benchmarks/benchmark_workload.cpp:216-218 | the analyzer's exact miss and misprediction counts for MemoryStride at every length below 2^64 |
| Workloads.StridePasses | benchmarks/benchmark_workload.cpp:216-218 | after p >= 1 passes of 1282 instructions: 1 instruction miss, 16 data misses, p + 1 mispredictions |
| Workloads.StrideCycles | benchmarks/benchmark_workload.cpp:220-222 | MemoryStride's estimate after p whole passes is exactly 1287 p + 335 cycles |
| Workloads.PatternStatistics | benchmarks/benchmark_workload.cpp:216-218 | the analyzer's exact statistics for BranchPattern after whole passes |
| Workloads.PatternCycles | benchmarks/benchmark_workload.cpp:220-222 | BranchPattern's estimate after p whole passes is exactly 1799 p + 15 cycles |
| Workloads.BenchmarkWorkload.Reset | benchmarks/benchmark_workload.cpp:175-197 | the machine starts the kind's program with its registers, and the analyzer is empty |
| Workloads.BenchmarkWorkload.Run | benchmarks/benchmark_workload.cpp:199-202 | every run reaches its limit, and the analyzer has seen exactly the instructions since the reset |
| Workloads.BenchmarkWorkload.EstimateCycles | benchmarks/benchmark_workload.cpp:220-222 | the exact components and sum of everything run since the reset whenever they fit 64 bits, and otherwise the first component that does not |
| Workloads.BenchmarkWorkload.constructor | benchmarks/benchmark_workload.cpp:156-173 | a new workload is a reset one, in sixteen kibibytes from 0x1000, measured by 4096-byte two-way caches of 64-byte lines, 256 counters starting at 1, and costs 1, 10, 20 and 5 |
| Workloads.BenchmarkWorkload.Statistics | benchmarks/benchmark_workload.cpp:216-218 | the statistics are those of everything run since the reset |

## Left out

- Command-line parsing, usage text, hexadecimal printing and output sinks (`app/rvemu_cli.cpp`, `app/rvemu_main.cpp`): text input and output.
- The debugger's text handling: commands arrive as values, and every command that only prints (help, registers, memory, the breakpoint list, lines that do not parse) is one value, Inspect.
- Opening and reading ELF files (`load_elf32_file`): the loader starts from the file's bytes.
- The Linux system calls (`src/linux_syscalls.cpp`): the environment is any deterministic function of its own state, the call and the guest memory, which it may read but not write.
- Error-message tables and exception classes: only the typed codes, addresses, widths and operations are kept.
- Object lifetimes, virtual dispatch and aliasing of the attached observer: the engine records its observations, and the analyzer receives the record after the run instead of during it.
- Result variants that carry statistics are a record of statistics and a reason, and the loader's and stack's optional values are their own result types.
- Host memory exhaustion: creating a region never fails for lack of host memory.
- An out-of-range workload kind, which the source rejects with an exception, is not representable.
- The benchmark harness, host timing, percentages, the act-smoke tool and the conformance scripts: outside the emulator's logic.
