# A verified model of the IJVM

This project models the IJVM interpreter, its array heap with mark-and-sweep collector, its start-up scan
of main, its program loader, and the debugger's call history, and proves what these parts keep over whole
runs.

The source is C that changes global state step by step, so every part exists twice. A class or method
changes fields and arrays in place the way the C code does (`Ijvm`, `ArrayMemory`, `CallHistory`,
`Memories`, `SymbolBlock`, and the methods of `Scan` and `Startup`), and is proved against a function on
values (`Machine`, `Heaps`, `History`, `Binary`, `Symbols`). The theorems are about those functions, and
they compare them with definitions that are independent of them: a frame-list machine for the flat stack,
reachability for the collector, a last-store map for the heap, a writer for the loader, a list of calls
for the call history, and the effect of each opcode byte on the raw state for the interpreter.

| files | contents |
|---|---|
| `words`, `outcomes`, `programs` | machine words, the tagged array reference, ways an operation ends, instruction decoding |
| `machine`, `registers`, `opcodes`, `ijvm` | the flat-stack machine, its register and code bounds, the instruction set told byte by byte, the machine in place |
| `frames`, `refinement`, `calls` | the frame-list machine, the simulation, balanced calls |
| `heaps`, `collector`, `allocation`, `heap_runs`, `vm_heap`, `array_memory` | the array heap, reachability, slots, the heap as a map, the heap under a running program, the heap in place |
| `scan`, `startup`, `main_frame` | the scan of main, booting, agreement of scan and run |
| `history`, `shadow`, `call_history` | the packed call record, its agreement with the frame list, the record in place |
| `binary`, `symbols`, `loader` | the two file readers against one writer, symbol lookup, the readers in place |

## Conventions

* An operation ends `Live`, or in one of the final outcomes of `Outcomes`: `Destroyed` is
  `destroy_ijvm_now`; `WildStack` and `WildCode` are accesses outside the allocated stack or the code,
  where the C program has no defined behaviour; `Unmodelled` is a NET instruction. Guarantees are about
  live states. The frame machine also has `Undisciplined`: a program took an operand its frame does not
  have, or main returned. `Calls.DisciplineIsSpBound` says what that means for sp.
* The answers of malloc, calloc and realloc, and the contents of fresh stack memory, are a parameter
  (`Heaps.Env`, `alloc`), fixed but arbitrary. Input is a byte sequence and output an appended one.
* `int` arithmetic of the C code that would overflow wraps in two's complement, and the host is
  little-endian.
* `realloc` to 0 bytes counts as a failure.

## What the code does that its documentation does not say

* Collection is documented as keeping every array reachable from the stack (`docs/isa_extensions.md:41-57`).
  The code leaves out the topmost stack word and looks at arrays in one ascending pass, so a reference from
  an array to a lower-numbered one that was not marked before is marked but not followed.
  `Collector.DescendingChainIsCut` gives a heap of three arrays that loses a reachable one, and
  `Collector.CollectionIsSafeIff` the exact condition under which none is lost.
* A number that only looks like a reference is documented as costing memory at most
  (`docs/isa_extensions.md:28-32`). If it names a slot beyond the map it ends the machine at the next
  collection (`Collector.StrayReferenceEndsRun`).
* The documentation speaks of a 24-bit array number; the masks leave 20 bits
  (`References.MaskedTag`), and the tag check that is to reject larger numbers accepts some of them
  (`References.TagCheckIsPartial`). Taking the least free slot is what keeps numbers below 2^20
  (`Allocation.StoreClaimsOneSlot`).
* The collector is documented to run at every 100th array creation; it runs at every 101st request for a
  slot, and sockets count (`Allocation.TicksCollect`).
* `power(base, p)` computes `base * p^p` (`Startup.Power`), which the stack size search survives
  (`Startup.PickStackSize`).
* `stack_pop` compares sp with lv and not with the operand base, so the frame list is safe only for
  disciplined programs (`Refinement.RunSim`, `Calls.DisciplineIsSpBound`); `Calls.PopTakesNoOperandIff` says
  when a pop takes something else, such as a return address.
* A WIDE in the last byte of code makes the interpreter fetch one byte beyond it, and in code of 2^31 - 2
  or 2^31 - 1 bytes the guards of the operand fetches can wrap and pass (`Registers.CodeReadsStayInside`).
* When the call history cannot be grown, the debugger keeps the size it asked for with the old buffer, and
  its run loop goes on because the quit flag is set: the next calls may be written beyond the buffer
  (`History.SaveMakesRoom`, `History.RefusedGrowthIsForgotten`), and the loop does not stop at the program's
  end (`Shadow.QuitStays`).
* `addr_to_func_name` reads entry -1 of the name table for an address below the first label, and gives up
  above the last one (`Symbols.AddrToFuncName`).
* The symbol reader fails exactly when one block's names reach 2^30 characters, because the byte count of
  its buffer wraps (`Symbols.FileRoundTrip`).
* Restarting the debugger keeps the old call history, so `Shadow.RecordShadowsFrames` carries a `base`.

## Model

| member | source | states |
|---|---|---|
| Words.ToU32 | src/array.c:26 | converting to `uint32_t` and back gives the word again |
| Words.ConversionsKeepBits | src/interpreter.c:58-87 | wrap-around, sign extension and the big-endian join of two bytes keep the low bits, which with their ranges fixes them |
| Bits.AndOrShare | src/interpreter.c:166-171 | of two operands of one width, AND and OR have the same sum as the operands, AND is not above and OR not below the first, and neither is wider |
| References.MaskedTag | src/array.c:14-27 | the masks and the XOR test single out exactly the words with 0xAA on top and 0xA at the bottom, and the 20 bits between are the index |
| References.RefRoundTrip | src/array.c:24-36 | below 2^20, an index made into a reference passes the tag test and decodes to itself |
| References.RefFromIndex | src/array.c:24-36 | a reference-shaped word is the reference of its own index, so references with one index are equal |
| References.CodecIsExact | src/array.c:24-36 | for every 32-bit index: it survives the codec if and only if it is below 2^20, and its reference passes the tag test if and only if OR-ing bits 20 to 27 into 0xAA changes nothing |
| References.TagCheckIsPartial | src/array.c:62-68 | the tag check rejects 2^20 and the all-ones failure index, but lets 2^21 pass, as the reference of index 0 |
| Machine.ArithmeticLaws | src/interpreter.c:150-171 | IADD is the sum and ISUB the difference modulo 2^32, and they undo each other; IAND and IOR are the conjunction and disjunction of their operands at every bit |
| Registers.GrowKeeps | src/cpu.c:16-36 | any number of growths keeps every old word in place and the capacity at or below 2^30 words |
| Registers.GrowSucceedsIff | src/cpu.c:22-31 | the grow loop succeeds exactly when some number of eightfold growths, each granted and within 2^30 words, makes room |
| Registers.PushRange | src/cpu.c:16-36 | a live push appends: the word is on top and everything below is unchanged, whatever was grown |
| Registers.InvokeRange | src/interpreter.c:261-312 | a call, by any program, zeroes its locals inside the stack, keeps the registers in range, and does not overflow `sp + locals + 4` |
| Registers.ReturnRange | src/interpreter.c:228-250 | a live return leaves the registers in range, whatever linkage words it read |
| Registers.JumpRange | src/cpu.c:124-132 | a live jump leaves pc nonnegative and does not overflow |
| Registers.StepKeepsRange | src/interpreter.c:434-561 | every live step of every program keeps -1 <= sp < stack size, pc, fp, lv, nv >= 0, and the bounds of the array map |
| Registers.RunKeepsRange | src/interpreter.c:423-431 | the same after any number of steps of `run` |
| Registers.CodeReadsStayInside | src/interpreter.c:51-76 | a step of any program started inside the code reads outside it if and only if nothing but WIDEs is left, or an operand's or a method header's guard wraps past the largest `int` |
| Registers.SmallCodeReadsStayInside | src/interpreter.c:423-441 | in code of less than 2^31 - 2 bytes no guard wraps: a step reads outside if and only if only WIDEs are left |
| Registers.LargestCodeOverruns | src/interpreter.c:51-59 | in code of 2^31 - 1 bytes a BIPUSH in the last byte reads the byte behind |
| Programs.DecodeAt | src/interpreter.c:315-320 | decoding takes its opcode from the first byte that is no WIDE, prefixed if one comes before it, and from outside the code if there is none |
| Programs.OperandsOverrunIff | src/interpreter.c:51-76 | an operand is read outside the code if and only if the first fetch that does not fit reaches past the largest `int`, where its guard wraps; ISTORE pops before |
| Programs.HeaderOverrunsIff | src/interpreter.c:265-276 | likewise the two shorts of a called method's header |
| Opcodes.NopStep | src/interpreter.c:79-80 | NOP moves pc alone |
| Opcodes.BipushStep | src/interpreter.c:83-87 | BIPUSH puts the sign-extended byte behind it on top, failing only where the stack is full and cannot grow |
| Opcodes.LdcWStep | src/interpreter.c:90-95 | LDC_W puts the constant at the unsigned index behind it on top, and ends the machine if there is none |
| Opcodes.IloadStep | src/interpreter.c:98-110 | ILOAD puts the word at lv + v on top, v being the byte or, prefixed, the unsigned short behind it |
| Opcodes.IstoreStep | src/interpreter.c:113-126 | ISTORE moves the top word to lv + v and changes no other word |
| Opcodes.PopStep | src/interpreter.c:129-132 | POP lowers sp by one and changes no word |
| Opcodes.DupStep | src/interpreter.c:135-138 | DUP puts the word at sp once more, and reads outside where sp is -1 |
| Opcodes.SwapStep | src/interpreter.c:141-147 | SWAP exchanges the two top words |
| Opcodes.IaddStep | src/interpreter.c:150-155 | IADD replaces the two top words by their sum modulo 2^32 |
| Opcodes.IsubStep | src/interpreter.c:158-163 | ISUB replaces them by the lower minus the topmost modulo 2^32 |
| Opcodes.IandStep | src/interpreter.c:166-171 | IAND replaces them by the word with exactly the bits that both have |
| Opcodes.IorStep | src/interpreter.c:253-258 | IOR by the word with exactly the bits that one of them has |
| Opcodes.IincStep | src/interpreter.c:174-188 | IINC adds the signed byte behind the index to the variable modulo 2^32; its two-byte index is signed |
| Opcodes.IfeqStep | src/interpreter.c:191-198 | IFEQ takes a word and goes to its opcode's address plus the signed offset if it is 0, else behind the offset |
| Opcodes.IfltStep | src/interpreter.c:201-208 | IFLT likewise if it is negative |
| Opcodes.IcmpeqStep | src/interpreter.c:211-218 | ICMPEQ takes two words and jumps if they are equal |
| Opcodes.GotoStep | src/interpreter.c:221-225 | GOTO always jumps; a jump below 0, past the largest `int`, or by the code's size or more ends the machine |
| Opcodes.InvokevirtualStep | src/interpreter.c:261-312 | INVOKEVIRTUAL succeeds if and only if the short behind it is the index of a constant that is an address with four header bytes in the code, the stack holds the argument count those bytes give, and there is room; pc is then behind the header, nv the sum of its two counts, fp above the old top by its local count, with the old lv, nv, fp and return address from fp on, zeros below, and all older words kept |
| Opcodes.IreturnStep | src/interpreter.c:228-250 | IRETURN succeeds if and only if there is a word and the four words from fp on pass as registers; it restores them, drops the frame's variables and puts the word on top |
| Opcodes.InStep | src/interpreter.c:323-334 | IN puts the next input byte, or 0 at the end, on top |
| Opcodes.OutStep | src/interpreter.c:337-341 | OUT takes a word and appends its low byte to the output |
| Opcodes.NewarrayStep | src/interpreter.c:356-360 | NEWARRAY leaves the created reference in the place of the count, collections seeing the words below the count's own place |
| Opcodes.IaloadStep | src/interpreter.c:363-368 | IALOAD takes the reference from the top and the index below it and leaves the element |
| Opcodes.IastoreStep | src/interpreter.c:371-377 | IASTORE takes the reference from the top, the index below it and the word below that |
| Opcodes.GcStep | src/interpreter.c:380-383 | GC collects with the words below the top as roots |
| Opcodes.EndStep | src/interpreter.c:344-353 | ERR, HALT and every byte that is no opcode raise a flag, after which no run goes on |
| Opcodes.CutStep | src/interpreter.c:51-76 | an instruction whose operands the code cuts off never completes, and in code below 2^31 - 2 bytes ends the machine |
| Opcodes.RunTurns | src/interpreter.c:423-441 | a run takes another step if and only if no flag is up and pc lies in the code |
| Opcodes.UndisciplinedIff | src/interpreter.c:441-546 | a step is undisciplined if and only if its frame holds fewer operands than its opcode takes, by byte, or main returns |
| Refinement.PushSim | src/cpu.c:16-36 | a push on the flat stack is a push on the top frame's operands |
| Refinement.PopSim | src/cpu.c:39-47 | a pop of an operand the top frame has is a pop of the flat stack, with the same word |
| Refinement.GetSim | src/cpu.c:98-107 | reading variable `i` from lv + i gives the top frame's local `i`, with the same failures |
| Refinement.SetSim | src/cpu.c:110-121 | a variable store changes one local of the top frame, strictly below fp, so no linkage word |
| Refinement.InvokeSim | src/interpreter.c:261-312 | INVOKEVIRTUAL on the flat stack is pushing a frame whose locals are the arguments followed by zeros |
| Refinement.ReturnSim | src/interpreter.c:228-250 | IRETURN on the flat stack is dropping the top frame and pushing its top operand on the caller's, at the caller's pc |
| Refinement.RootsSim | src/array.c:197-211 | what the collector reads off the flat stack are exactly the references among the frames' locals and operands, topmost word aside: linkage words never look like references |
| Refinement.StepSim | src/interpreter.c:434-561 | one step of the flat machine is one step of the frame machine, with equal outcomes unless the program is undisciplined |
| Refinement.RunSim | src/interpreter.c:423-431 | so over whole runs: at each length the flat stack, lv, nv, fp and sp encode the frame list, and both machines end alike |
| Calls.ExecShape | src/interpreter.c:441-546 | a live instruction calls, returns, or leaves all callers and the top frame's shape alone |
| Calls.DisciplineIsSpBound | src/cpu.c:39-47 | an instruction is undisciplined if and only if taking its operands brings sp below fp + 3 in a method or fp - 1 in main, or main returns |
| Calls.PopTakesNoOperandIff | src/cpu.c:39-47 | the flat pop hands out a word that is no operand if and only if sp lies between lv and the operand base; in a method without operands it is the return address |
| Calls.RunKeepsUnder | src/interpreter.c:423-431 | a run that stays above a depth leaves every frame up to that depth unchanged, and the frame above it the same call |
| Calls.MatchedReturn | src/interpreter.c:228-312 | the return that first comes back to a call's depth replaces the call's arguments by the word on top, in the caller's frame, at the instruction behind the call |
| Calls.BalancedCall | src/interpreter.c:228-312 | on the flat stack: after a call and its matching return, with any nesting between, lv, nv, fp, all words below the arguments are unchanged, sp is old sp - args + 1, pc is behind the call, and the returned word is on top |
| Ijvms.Ijvm.OctupleStackSize | src/cpu.c:56-84 | succeeds exactly when the size is positive, eight times it fits in 2^32 bytes and realloc grants it; old words are kept |
| Ijvms.Ijvm.StackPush | src/cpu.c:16-36 | the in-place grow loop and store leave exactly the machine with the word appended, or end it |
| Ijvms.Ijvm.StackPop | src/cpu.c:39-47 | ends the machine below lv or at -1, else gives the top word and lowers sp |
| Ijvms.Ijvm.GetArgByte | src/interpreter.c:51-59 | gives the byte at pc and advances, ends the machine at the end of code, or reads outside where the guard wraps |
| Ijvms.Ijvm.GetArgShort | src/interpreter.c:65-76 | gives the signed big-endian short at pc and advances, ends the machine, or reads outside where the guard wraps |
| Ijvms.Ijvm.GetLocalVariable | src/cpu.c:98-107 | gives the variable or ends the machine, as the value model does |
| Ijvms.Ijvm.UpdateLocalVariable | src/cpu.c:110-121 | stores the variable or ends the machine, changing one stack word |
| Ijvms.Ijvm.DoJump | src/cpu.c:124-132 | moves pc or ends the machine, as the value model does |
| Ijvms.Ijvm.Step | src/interpreter.c:79-561 | one step in place, each opcode's method on the stack and registers, the prefix flag and the nested step of WIDE included, leaves the state the decoded instruction leaves |
| Ijvms.Ijvm.Run | src/interpreter.c:423-431 | `n` turns of the loop in place leave the state of `n` steps of the value model, so every theorem about runs is about this loop |
| Ijvms.Ijvm.Init | src/init.c:184-200 | a loaded program boots to main's zeroed variables, empty operands and an empty heap, or ends |
| ArrayMemories.ArrayMemory.MarkRoots | src/array.c:197-211 | marks exactly the claimed arrays named below the top of the stack; ends the machine if one is beyond the map |
| ArrayMemories.ArrayMemory.ScanElements | src/array.c:226-247 | adds exactly the claimed arrays one array's elements name |
| ArrayMemories.ArrayMemory.MarkArrays | src/array.c:185-249 | the in-place pass ends live if and only if no root and no element of a scanned array lies beyond the map, and then has marked exactly the roots and what scanned arrays name |
| ArrayMemories.ArrayMemory.SweepArrays | src/array.c:255-267 | keeps exactly the marked arrays, contents unchanged, and returns the number of claimed arrays without a mark |
| ArrayMemories.ArrayMemory.Collection | src/array.c:270-286 | one collection in place, bitmap allocation included, is one collection of the value model, freed count and failures alike |
| ArrayMemories.ArrayMemory.GetFreeIndex | src/marr.c:16-37 | counts or collects, then gives the least free slot, or none if all are claimed |
| ArrayMemories.ArrayMemory.AddElement | src/marr.c:109-120 | claims the least free slot for the block and touches no other |
| ArrayMemories.ArrayMemory.ResizeMap | src/marr.c:54-95 | old slots keep their contents and new ones are free, after any retry; ends the machine otherwise |
| ArrayMemories.ArrayMemory.StoreBlock | src/array.c:43-70 | stores a block, resizing a full map once, and returns its reference if it carries the tag |
| ArrayMemories.ArrayMemory.CreateArray | src/array.c:73-99 | creates a zeroed array of a positive size, with the retry after a collection that freed something |
| ArrayMemories.ArrayMemory.CheckBounds | src/array.c:105-131 | passes if and only if the word is a reference, its slot is claimed and the index lies in the array |
| ArrayMemories.ArrayMemory.GetElement | src/array.c:134-143 | gives the element, or ends the machine as the bounds check says |
| ArrayMemories.ArrayMemory.SetElement | src/array.c:146-155 | changes that element alone |
| Heaps.CollectionConserves | src/array.c:255-267 | the arrays before a collection are as many as those kept and the unmarked ones, counted slot by slot, together |
| Heaps.FirstFree | src/marr.c:28-35 | every slot below the result is claimed, and the result is free or the map size |
| Collector.ScannedIffClimbs | src/array.c:214-223 | the pass looks at the elements of an array if and only if a chain of references from the stack climbs to it, every link to a higher slot |
| Collector.MarkedIffClimbsNear | src/array.c:185-249 | what a collection marks, said of the graph alone: an array is marked if and only if a chain of references from the stack leads to it in which every link but perhaps the last goes to a higher slot |
| Collector.SurvivorsAreReachable | src/array.c:185-267 | in any heap graph a survivor is reachable from the words below the top of the stack: all unreachable arrays are freed |
| Collector.AscendingHeapIsExact | src/array.c:214-248 | if no reference points to a lower slot, survivors are exactly the reachable arrays |
| Collector.CollectionIsSafeIff | src/array.c:197-248 | every array reachable from the whole stack survives if and only if, in the graph, nothing lies behind arrays that only a falling last link leads to, other than what a chain climbing but for its last link leads to as well, and the array named by the unseen topmost word has such a chain |
| Collector.DescendingChainIsCut | src/array.c:214-248 | of arrays 2 -> 1 -> 0 with 2 on the stack, the reachable array 0 is freed although 1 stays |
| Collector.StrayReferenceEndsRun | src/array.c:205-206 | a word that looks like a reference to a slot beyond the map, anywhere below the top of the stack, makes every collection end the machine |
| Collector.CollectionLiveIff | src/array.c:197-248 | a collection ends live if and only if its bitmap is granted and neither the stack below its top nor an array that references climb to holds a reference-shaped word beyond the map |
| Collector.CollectAgain | src/array.c:185-267 | collecting twice with one stack is collecting once |
| Collector.SecondCollectionFreesNothing | src/array.c:270-286 | a collection right after a collection frees nothing |
| Collector.CreateRetriesOnce | src/array.c:85-94 | the retry of `arr_create` happens at most once, whatever the allocator answers |
| Collector.ResizeRetriesOnce | src/marr.c:69-83 | so does the one of `marr_resize` |
| Allocation.PlaceTakesLeastSlot | src/array.c:48-60 | storing takes the least free slot, at most 2^20, and after a resize the second search always finds one |
| Allocation.StoreClaimsOneSlot | src/array.c:43-70 | a live store claims one free slot below 2^20, its reference decodes to that slot, nothing else changes, and the map stays at or below 2^21 |
| Allocation.CreateClaimsOneSlot | src/array.c:73-99 | a live `arr_create`, retries included, is one such store of a zeroed array |
| Allocation.CreateSucceedsIff | src/array.c:43-99 | with every allocation granted and no stray reference, `arr_create` succeeds if and only if the count is positive and the least slot unclaimed in the map last searched, collected when the counter asks for it and continued by free slots, is below 2^20; the reference is that slot's, and the map has 64 slots at first and doubles when it is full |
| Allocation.LeastFreeIsLow | src/marr.c:28-36 | with no slot from 2^20 on claimed, the search never passes 2^20 |
| Allocation.GrownMapHasRoom | src/array.c:56-60 | in a grown map, even after another collection, the search ends inside the old size or right behind it |
| Allocation.TicksCollect | src/marr.c:16-27 | over any row of slot requests the counter goes round modulo 101, so exactly every 101st request collects |
| Allocation.EvolvesTrans | src/marr.c:54-95 | any number of collections and growths during one allocation comes to one collection and one growth |
| HeapRuns.StepKeepsArray | src/array.c:43-155 | one operation of any kind, if its collections mark an array, leaves its words alone except for a store through its own reference, and does not give that reference out again |
| HeapRuns.StepLosesUnmarked | src/array.c:255-286 | a collecting operation that does not mark an array leaves its slot free, or gives its reference out again |
| HeapRuns.MarkedByStack | src/array.c:197-248 | a collection marks an array if and only if a chain climbing but for its last link leads to it from the words below the top; a reference among those words is enough |
| HeapRuns.HeapIsAMap | src/array.c:73-155 | over any live run of create, set, get, collect and socket adds whose collections all mark the array, through the stack or through other arrays, a get gives the last word set, else 0, else ends outside the bounds; no other array shares the reference |
| HeapRuns.AccessIff | src/array.c:105-155 | loads and stores succeed alike, if and only if the word is a reference, its slot is claimed and the index lies in the array |
| HeapRuns.SelectStore | src/array.c:134-155 | a load after a store gives the stored word at the same reference and index, and what it gave before anywhere else |
| VmHeap.StepFollows | src/interpreter.c:356-383 | the heap effect of any instruction of any program is that of at most one heap operation, which sees the stack below the top without the operands taken |
| VmHeap.RunFollows | src/interpreter.c:423-431 | the heap after any program run is the heap after the run of its operations |
| VmHeap.LoadSeesLastStore | src/interpreter.c:356-377 | in any program, IALOAD from an array made by an earlier NEWARRAY gives the last word IASTORE put there, or 0, and outside the bounds ends the machine, if every collection in between marked the array, through the stack or through other arrays |
| Scan.NumLocalVarsMain | src/init.c:14-121 | the scanning loop computes what the scan function computes, which is never negative and at most 32768 |
| Scan.SameLength | src/init.c:30-119 | from the start of any instruction main may hold, the scan arrives exactly where the interpreter's decoding ends, looks there unless it is over, and has counted the variable the instruction names |
| Scan.VisitsNext | src/init.c:30-119 | so wherever the interpreter goes on behind an instruction the scan has looked at, the scan looks too |
| Scan.VisitedVariableIsCounted | src/init.c:55-79 | a variable instruction the scan looks at names a variable below the count it returns |
| Scan.MainScanIsExact | src/init.c:30-119 | the count is 0 or one more than the index of some variable instruction the scan looks at, and above all such indices; the first method is none or the target of some call it looks at, and not above the target of any |
| Scan.StopsBeforeCalled | src/init.c:34-52 | behind a call the scan looks at nothing that starts in the called method or in the byte before it |
| Scan.ScanLiveIff | src/init.c:30-119 | the scan reads inside the code and the constants if and only if every index and every called constant it looks at lies there |
| MainFrame.RunOnTrack | src/interpreter.c:423-431 | over a disciplined run, main always stands, or will go on after its calls return, at an instruction the scan has seen, if main ends before its first method, no instruction is cut off, WIDE precedes only variable instructions with indices below 32768, and jumps go to instructions |
| MainFrame.MainVariablesAreInBounds | src/cpu.c:98-121 | so in the booted flat machine no variable access in main fails its bound check, before, between and after calls |
| Startup.Power | src/util.c:24-35 | computes base * power^power modulo 2^32, and 1 for power 0 |
| Startup.PickStackSize | src/init.c:137-146 | for at most 32768 variables the search takes the least candidate that fits, always among the first three, and leaves at least 256 words |
| Startup.BootEncodes | src/init.c:127-181 | the booted machine encodes main alone with zeroed variables, so the refinement starts there |
| Startup.BootInRange | src/init.c:127-200 | booting succeeds if and only if the scan ends and the stack is granted; the machine then stands at address 0 with main's variables zeroed, no operands, no flag, an empty heap, and its registers in range |
| History.WalkUnpacks | src/ijdb.c:98-130 | walking the packed words of any list of calls gives the calls newest first, arguments in push order |
| History.RemoveUndoesSave | src/ijdb.c:266-326 | for every record, removing right after saving restores the words, and nothing was written beyond the buffer; only a refused growth saves nothing |
| History.SizeIsCapacity | src/ijdb.c:279-294 | until a growth is refused the recorded size is the capacity of the buffer |
| History.SaveMakesRoom | src/ijdb.c:277-302 | for every record: a call is written beyond the buffer if and only if it is not refused room and the total reaches 2^32, or the margin of 1024 wraps the new size, or no growth is asked for although the buffer is too small |
| History.RefusedGrowthIsForgotten | src/ijdb.c:279-302 | growing the fresh buffer is refused, and the next call believes in the refused size and writes beyond the buffer |
| Shadow.TopWordsAreArgs | src/ijdb.c:297-300 | the words saved for a call are the caller's topmost operands in reverse, as the callee gets them |
| Shadow.SameMethod | src/ijdb.c:275-277 | for an unprefixed call the debugger reads the same address and argument count as the interpreter |
| Shadow.TrackStep | src/ijdb.c:246-260 | tracking a step keeps the record equal to the frame list, unless the buffer cannot be grown |
| Shadow.QuitStays | src/ijdb.c:373-396 | once set, the quit flag stays, and with it set the loop, instead of ending at the end of code, reads beyond it |
| Shadow.RecordShadowsFrames | src/ijdb.c:350-396 | over every disciplined run with unprefixed calls and returns and argument counts below 32768, the record holds the frame list's calls, addresses and passed arguments, above what it held before |
| Shadow.TrackingEndsAfterRefusal | src/ijdb.c:350-396 | tracking ends such a run only some steps after a growth was refused |
| Shadow.FreshBacktraceIsFrameList | src/ijdb.c:98-130 | from a fresh load the printed backtrace is the frame list, newest first, down to main |
| CallHistories.CallHistory.constructor | src/ijdb.c:750-759 | a new history holds main alone |
| CallHistories.CallHistory.SaveCall | src/ijdb.c:279-302 | for every record, after a refused growth too, the in-place growth and copy leave the record with the call on top, or set quit and the refused size, or leave the buffers |
| CallHistories.CallHistory.CopyArguments | src/ijdb.c:297-300 | appends the top stack words, topmost first, and nothing else |
| CallHistories.CallHistory.StoreFuncCall | src/ijdb.c:266-317 | saves the call the instruction at pc is about to make |
| CallHistories.CallHistory.RemoveLastCall | src/ijdb.c:320-326 | drops the newest call, in place |
| CallHistories.CallHistory.Create | src/ijdb.c:246-260 | does what the opcode at pc asks for |
| CallHistories.CallHistory.Backtrace | src/ijdb.c:98-130 | the printing loop yields exactly the walk of the packed words |
| Binary.ReadsWritten | src/util.c:18-21 | a written word is read back, through the byte swap |
| Binary.ConstsReadBack | src/loader.c:67-82 | every written constant pool is read back |
| Binary.LoadReadsWritten | src/loader.c:132-160 | loading a written program recovers constants and code and stops right behind them, whatever follows |
| Binary.LoadAcceptsIff | src/loader.c:41-160 | with its buffers granted the loader accepts a file if and only if it starts with a written program |
| Binary.SignatureIsChecked | src/loader.c:22-33 | only files whose first bytes are 1D EA DF AD load |
| Symbols.SymbolsReadBack | src/debug_data_loader.c:97-132 | the symbol loop recovers every written list of NUL-free names if and only if their buffer stays below 2^30 characters, and fails otherwise |
| Symbols.SymbolsAreInFile | src/debug_data_loader.c:97-132 | whatever the symbol loop returns for a block below 2^31 bytes are NUL-free symbols that stand written in the file and fill the block |
| Symbols.DebugNeedsBlocks | src/debug_data_loader.c:149-151 | symbols are accepted only behind two blocks whose sizes stand in the file |
| Symbols.MissingBlockIsEmpty | src/debug_data_loader.c:90-97 | a symbol block without a size counts as empty |
| Symbols.BlockSkips | src/debug_data_loader.c:41-50 | skipping a written block arrives right behind it |
| Symbols.FileRoundTrip | src/debug_data_loader.c:138-171 | both readers on one written file: constants and code come back, the two skips arrive where loading stopped, and both symbol tables come back if and only if their names take less than 2^30 characters |
| Symbols.TableNames | src/debug_data_loader.c:211-220 | name `i` and address `i` of a recovered table are those of the `i`-th written symbol |
| Symbols.AddrToFuncName | src/ijdb.c:149-179 | on ascending labels: the name of the greatest label not above the address, from the first label to the last; "??" beyond the last or without labels; entry -1 below the first |
| Loaders.ProgramFile.ReadWords | src/loader.c:74 | reads all words in host order or fewer than asked |
| Loaders.ProgramFile.GetC | src/debug_data_loader.c:126 | gives 0xFF behind the end and stays there |
| Loaders.Memories.SwapAll | src/loader.c:79-82 | the in-place loop turns the raw words into the constants |
| Loaders.Memories.LoadConsts | src/loader.c:41-85 | loads the pool and leaves the position behind it, or fails, as the value reader does |
| Loaders.Memories.LoadCode | src/loader.c:93-129 | likewise the code |
| Loaders.Memories.LoadBin | src/loader.c:132-160 | likewise the whole file, checking the magic number first |
| Loaders.SymbolBlock.BlockSize | src/debug_data_loader.c:23-35 | gives the size behind the origin, or -1 |
| Loaders.SymbolBlock.Skip | src/debug_data_loader.c:41-50 | moves behind the block, as the value reader does |
| Loaders.SymbolBlock.Read | src/debug_data_loader.c:77-135 | the nested loops over the file position and three growing buffers build the table of the value reader |
| Loaders.SymbolBlock.ReadSymbol | src/debug_data_loader.c:97-132 | one turn of the outer loop leaves the rest of the block to be read as before, or the whole read fails |
| Loaders.SymbolBlock.ReadName | src/debug_data_loader.c:119-129 | the inner loop appends one name with its NUL and counts its bytes modulo 2^32 |
| Loaders.SymbolBlock.EndNeverReads | src/debug_data_loader.c:119-129 | a name cut off by the end of the file is never finished: the buffer grows until it cannot |
| Loaders.LoadDebugData | src/debug_data_loader.c:138-171 | gives both tables, or leaves both empty |

## Left out

- NET instructions and `src/net.c`: operating-system calls; executing one ends a modelled run as `Unmodelled`. Only their share in the counter that triggers collection is kept (`HeapRuns.NetAdd`).
- Collection after a failed stack `realloc` (`src/cpu.c:71-81`): the retry is not modelled, a refused growth ends the machine.
- Registers.GrowSucceedsIff: for the same reason does not include the collection and second attempt after a refused `realloc`, which looks at stack words beyond the old allocation.
- Ijvms.Ijvm.OctupleStackSize: likewise.
- Ijvms.Ijvm.Run: stops after `n` turns of a loop that need not terminate in the source; the theorems hold for every `n`.
- Ijvms.Ijvm.ExecOut: the byte is appended to a sequence; flushing and write errors of stdio are not modelled.
- Ijvms.Ijvm.Init: loading is a separate step, and the choice of input and output streams is not modelled.
- CallHistories.CallHistory.SaveCall: an argument copied from outside the stack, or a word written outside the buffer, ends the model; the C code has no defined behaviour there.
- CallHistories.CallHistory.Backtrace: gives the calls and arguments that are printed, not the text; only the full listing (`n` equal to 0) is modelled.
- CallHistories.CallHistory.constructor: assumes that the allocation of two words succeeds, as the C code does.
- Word 0 of an array block, which holds its size, is not a word of the abstract array.
- The debugger's command loop, breakpoints, restart, and label lookup by name (`src/ijdb.c:187-220`): user interface, or a plain search.
- `op_decode`, printing, dumps, DEBUG output, signals, file opening and closing, `src/main.c`, `src/terminate.c` beyond ending the run.
- Freeing memory at exit (`arr_destroy`, `cpu_destroy`), and memory of `str_dup`.
