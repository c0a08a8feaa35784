# Verified models of Vetro

Vetro emulates an AArch64 machine. This project models its hardest parts in Dafny 4.11 and proves what they promise. `dafny verify dfyconfig.toml` checks everything.

**User-mode JIT over the process address space.** `JitCpu` alternates interpreter steps with compiled regions, found through block maps per address space, a table of modules keyed by code words, and a jump cache tagged with context numbers. `UserMemory` is a map of regions that is split, moved and re-protected in pieces and reports changes of watched code pages.

- `AddressSpace`, `Regions`, `RegionMap`, `UserMemory`: the region map against a flat map from addresses to bytes with permissions, and the content of the shared buffers (`Ram`). Every operation changes exactly the intended bytes and reports every watched page it changed; accesses fault exactly where stated, in shared memory and beyond the end of a file too.
- `JitBlocks`: what the driver relies on. The interpreter step, the discovery of regions and compiled code are parameters (`World`) bound by contracts. They work on registers and `Ram`, so loads and stores of MAP_SHARED memory are included; `ContractsCanBeMet` shows that the contracts are consistent, with a machine that does both.
- `JitCaches`, `JitDriver`, `JitSystem`: the caches and the run loop as a class with the source's fields. A run equals the same number of interpreter steps; a region is entered only while its words are in memory, over whole runs of many processes over one set of shared buffers, with forks, kernel changes, eviction, resets and wrap-around of context numbers.

**AArch64 arithmetic.** `Flags` and `JitState` cover the condition flags, eager and lazy; `Bits` the bit masks and bitfield instructions; `Exclusive` load- and store-exclusive on any number of cores; `LeBytes` little-endian numbers.

**gfxstream host decoder.** Many guest GL contexts share one WebGL context.

- `OpBuf`, `GlState`: the op stream as packed words, and a small WebGL machine that executes it.
- `Transition`, `GlCalls`, `GlEffects`, `GlContexts`: the diff of state vectors, the state-setting calls, what each of them means field by field, and the mirror of the WebGL state. Each context has a reference: a WebGL context of its own that only executes its own calls. At every draw the shared context, executing the words of the batch, agrees with it.
- `ShaderLifetime`: names, attachment counts and deferred deletion.
- `Wire`, `RenderPipe`: the call format and the byte pipe; what a call does is a parameter (`Host`).
- `GlslExpr`, `GlslPreprocess`, `GlslNesting`: the preprocessor's evaluator against expression trees, its conditional stack against nested trees, and which lists of lines are such trees.

**Host port forwarding.** `HostFwd` is the step relation of reader, channel, main loop and writer.

`Collections` holds set helpers.

## Where a property is false of the code

- `find_free`: the saturating sum of `bottom` and `len` can meet `top` at the last address when nothing is mapped; then the result lies below `bottom` (`FindFree`, `FindFreeBelowBottom`).
- An access that starts in a MAP_SHARED region and would run beyond the end of its file there is refused at its first byte, also where each byte by itself is accessible. It answers as a check byte by byte would if and only if it does not spill in this way from an accessible first byte (`AnswerIsBytewise`, with the family `SpillsThoughUsable`).
- `transition`: floats are compared with `==`, so a change of 0 to -0 emits nothing; indexed buffer bindings are cut to 32 bits, and size 0 drops the offset (`ArrivesExactly`, `ArrivesUpToZero`, with one concrete pair each). The rest of the GL results therefore speak of states up to the sign of zero.
- `JitCpu::run` terminates if the engine holds two modules after a reset, or if code must be seen twice before it is compiled. An engine that holds one module and compiles at first sight never executes anything (`NeverStarts`, and the last clause of `Round`).
- The cuts of the render stream matter after a malformed header: every cutting gives the same pipe, calls and replies if and only if no malformed header is followed by more bytes than its own 8 (`CutsMatterUnlessSafe`); a call may even be performed or not (`MalformedDependsOnCuts`).
- `#version` takes effect in branches that are not selected: such a branch has no effect, wherever it stands, if and only if it contains no `#version` at any depth (`VersionIgnoresBranches`).
- The documentation of the jump cache speaks of a second way at index `i ^ 1`, to which the host moves entries; in user mode the host only writes index `i`, so that search never finds an entry. `FindEntry` keeps it and states this.

## Model

| member | source | states |
|---|---|---|
| `AddressSpace.TrackedTransitive` | crates/vetro-cpu/src/mem.rs:343-398 | what an address space owes to the JIT (watched pages with changed bytes, kinds or permissions are dirty, none is forgotten) composes over operations |
| `Regions.Region.SplitOff` | crates/vetro-cpu/src/mem.rs:214-243 | cutting a region keeps every byte, permission and flag at its place; the straddling page ends up in both halves |
| `Regions.SplitBytes` | crates/vetro-cpu/src/mem.rs:214-243 | both halves of a cut page map read the bytes of the whole one |
| `Regions.Own` | crates/vetro-cpu/src/mem.rs:123-141 | the loop over page-sized chunks gives a region that holds exactly `data` |
| `Regions.ReadRegion` | crates/vetro-cpu/src/mem.rs:154-177 | the chunked read fills the buffer with the bytes of the region |
| `Regions.WriteRegion` | crates/vetro-cpu/src/mem.rs:179-203 | the chunked write changes exactly the written bytes, in private pages or in the shared buffer |
| `Regions.WritePages` | crates/vetro-cpu/src/mem.rs:179-203 | the loop over page chunks: exactly the bytes of `data` change, pages are created as needed |
| `RegionMap.CellIs` | crates/vetro-cpu/src/mem.rs:630-637 | in a map of disjoint regions the region that covers an address alone decides its byte |
| `RegionMap.SplitEdit` | crates/vetro-cpu/src/mem.rs:577-587 | splitting at an address keeps the regions disjoint and shows the same flat bytes |
| `RegionMap.RemoveEdit` | crates/vetro-cpu/src/mem.rs:589-602 | removing the regions of a range with cut edges empties exactly that range |
| `RegionMap.InsertEdit` | crates/vetro-cpu/src/mem.rs:408-417 | inserting over free space adds exactly the bytes of the region |
| `RegionMap.ProtectEdit` | crates/vetro-cpu/src/mem.rs:604-616 | re-protecting whole regions changes exactly the permissions of the range |
| `RegionMap.MoveEdit` | crates/vetro-cpu/src/mem.rs:473-486 | moved regions show, byte for byte, what the source range held |
| `UserMemory.MovedTracks` | crates/vetro-cpu/src/mem.rs:371-392 | if the pages of all changed bytes were moved from watched to dirty, the JIT is owed nothing |
| `UserMemory.RemapTracks` | crates/vetro-cpu/src/mem.rs:473-486 | the three `touch` calls of a move together cover source and target, overlapping or not |
| `UserMemory.UserMemory.WatchCode` | crates/vetro-cpu/src/mem.rs:343-347 | adds one page to the watch set and nothing else |
| `UserMemory.UserMemory.TakeCodeDirty` | crates/vetro-cpu/src/mem.rs:355-361 | hands over the dirty list and leaves it empty |
| `UserMemory.UserMemory.IsPrivate` | crates/vetro-cpu/src/mem.rs:363-369 | true exactly for mapped private bytes |
| `UserMemory.UserMemory.Touch` | crates/vetro-cpu/src/mem.rs:371-392 | both branches move exactly the watched pages of the range to the dirty list |
| `UserMemory.UserMemory.TouchShort` | crates/vetro-cpu/src/mem.rs:376-384 | page by page: exactly the watched pages of the range move |
| `UserMemory.UserMemory.TouchLong` | crates/vetro-cpu/src/mem.rs:384-391 | through the watch set: the same result as page by page |
| `UserMemory.UserMemory.TouchWrite` | crates/vetro-cpu/src/mem.rs:394-398 | the pages of the written bytes are dirty, or were not watched |
| `UserMemory.HitIs` | crates/vetro-cpu/src/mem.rs:371-392 | the pages of a range are exactly those in which a byte of it lies |
| `UserMemory.UserMemory.Overlaps` | crates/vetro-cpu/src/mem.rs:400-406 | true exactly if some byte of the range is mapped |
| `UserMemory.UserMemory.SplitAt` | crates/vetro-cpu/src/mem.rs:577-587 | no region straddles the address afterwards and no byte changed |
| `UserMemory.UserMemory.Unmap` | crates/vetro-cpu/src/mem.rs:589-602 | exactly the bytes of the range disappear; watched pages reported |
| `UserMemory.UserMemory.Map` | crates/vetro-cpu/src/mem.rs:408-417 | succeeds exactly if the range is free, and then adds exactly `data`; otherwise nothing changes |
| `UserMemory.UserMemory.MapFixed` | crates/vetro-cpu/src/mem.rs:419-426 | the range holds exactly `data` afterwards, whatever was there; nothing else changes |
| `UserMemory.UserMemory.MapZeroed` | crates/vetro-cpu/src/mem.rs:428-437 | the same with zero bytes |
| `UserMemory.UserMemory.MapShared` | crates/vetro-cpu/src/mem.rs:439-464 | the range names the places of the buffer window; nothing else changes |
| `UserMemory.UserMemory.Remap` | crates/vetro-cpu/src/mem.rs:473-486 | target holds what the source held, the rest of the source is unmapped, overlap included; pages reported |
| `UserMemory.UserMemory.RemapDontunmap` | crates/vetro-cpu/src/mem.rs:532-552 | the source stays mapped with zeroed private bytes, the target gets its old content |
| `UserMemory.UserMemory.Extend` | crates/vetro-cpu/src/mem.rs:554-575 | the region ending at `end` goes on with zeroes or the next bytes of its buffer; nothing else changes |
| `UserMemory.UserMemory.SetGrowsDown` | crates/vetro-cpu/src/mem.rs:487-492 | marks exactly the region that starts at the address; no page is touched, and the JIT is owed nothing |
| `UserMemory.UserMemory.GrowDown` | crates/vetro-cpu/src/mem.rs:498-530 | grows exactly when a grows-down mapping starts above an unmapped page and the guard gap is kept; then zeroes down to the page |
| `UserMemory.UserMemory.IsMapped` | crates/vetro-cpu/src/mem.rs:618-628 | true exactly if every byte of the range is mapped |
| `UserMemory.UserMemory.Protect` | crates/vetro-cpu/src/mem.rs:604-616 | fails exactly on a hole, changing nothing; otherwise exactly the permissions of the range change |
| `UserMemory.UserMemory.FindFree` | crates/vetro-cpu/src/mem.rs:657-671 | returns the highest hole, or None exactly when there is none, if and only if not (`bottom + len` overflows, `top` is the last address and nothing is mapped) |
| `UserMemory.FindFreeBelowBottom` | crates/vetro-cpu/src/mem.rs:657-671 | a concrete call of the failing family: the result lies below `bottom` |
| `UserMemory.HoleIsApart` | crates/vetro-cli/src/linux/mm.rs:237-241 | a hole found by `find_free` never overlaps a mapped range, so a move into it has disjoint ranges |
| `UserMemory.AnswerIsBytewise` | crates/vetro-cpu/src/mem.rs:720-746 | an access answers like a check byte by byte if and only if it does not spill over the end of a file from a usable byte |
| `UserMemory.SpillsThoughUsable` | crates/vetro-cpu/src/mem.rs:725-727 | the failing family: two usable bytes at the end of a file and the start of a private page are refused |
| `UserMemory.AnswerPermits` | crates/vetro-cpu/src/mem.rs:82-90 | an access that does not fault had its own permission bit (read, write or exec) on every byte; in private memory these bits are all it needs |
| `UserMemory.BeyondIs` | crates/vetro-cpu/src/mem.rs:203-213 | a byte is beyond the end of its file exactly if no byte of its page is in the file |
| `UserMemory.UserMemory.Locate` | crates/vetro-cpu/src/mem.rs:720-733 | the one-region fast path: refused exactly if the first byte is not usable or the access spills over the end of a file; inside only if every byte is usable |
| `UserMemory.UserMemory.CheckSlow` | crates/vetro-cpu/src/mem.rs:735-746 | the slow path reports exactly the first byte that is unmapped, refuses, or lies beyond the end of its file |
| `UserMemory.UserMemory.ReadBytes` | crates/vetro-cpu/src/mem.rs:763-781 | both paths give the bytes of the flat map and the shared buffers, or the fault stated by `Answer`, leaving the caller's buffer as it was; success needs the read bit of every byte, and on private memory nothing else |
| `UserMemory.UserMemory.RamDecides` | crates/vetro-cpu/src/mem.rs:763-781 | what an instruction can find out about memory depends on the mapped bytes and the shared buffers alone |
| `UserMemory.UserMemory.FetchWord` | crates/vetro-cpu/src/mem.rs:802-817 | the word whose four bytes, lowest first, are in memory, shared bytes included, or the fault of the access; success needs the exec bit of every byte, and on private memory nothing else; there it is exactly the word the translator reads |
| `UserMemory.UserMemory.WriteBytes` | crates/vetro-cpu/src/mem.rs:783-800 | exactly the written bytes change or none, in the regions and in the shared buffers; success needs the write bit of every byte, and on private memory nothing else; a private write leaves the buffers alone; watched pages reported |
| `UserMemory.StoredAt` | crates/vetro-cpu/src/mem.rs:192-200 | a place of a shared buffer holds the last stored byte that names it; a place that none names is unchanged |
| `UserMemory.PutWindow` | crates/vetro-cpu/src/mem.rs:192-200 | writing a run into a buffer at once, with its growth, is writing it byte by byte |
| `UserMemory.UserMemory.Poke` | crates/vetro-cpu/src/mem.rs:748-760 | like a write, whatever the permissions, up to the first unmapped byte |
| `Flags.AddWithCarryIsArm` | crates/vetro-cpu/src/exec.rs:60-73 | result and NZCV are those of the Arm ARM definition: C and V say whether the truncated result differs from the unsigned and the signed sum, at both widths |
| `Flags.SubIs` | crates/vetro-cpu/src/exec.rs:587-594 | subtraction by adding the complement gives the flags of the difference |
| `Flags.LazyAdd` | crates/vetro-jit/src/state.rs:421-434 | lazy flags of an addition equal the interpreter's, 32 and 64 bits |
| `Flags.LazySub` | crates/vetro-jit/src/state.rs:421-434 | the same for a subtraction |
| `Flags.LazyLogic` | crates/vetro-jit/src/state.rs:421-434 | the same for logical operations and `set_logic_flags` |
| `Flags.LogicFlagsMean` | crates/vetro-cpu/src/exec.rs:582-585 | after a logical operation N is the sign of the result, Z says it is zero, C and V are clear |
| `Flags.ConditionsCompare` | crates/vetro-cpu/src/state.rs:86-100 | after a subtract each of the 16 conditions decides its signed or unsigned comparison of the operands |
| `JitState.RoundTrip` | crates/vetro-jit/src/state.rs:197-236 | entering and leaving translated code without running anything changes no register |
| `JitState.EntersWith` | crates/vetro-jit/src/state.rs:197-216 | translated code starts with every register of the CPU, no flags pending, no SIMD registers and nothing counted |
| `JitState.WritesBack` | crates/vetro-jit/src/state.rs:197-236 | a state taken from one CPU turns any other with the same host fields and SIMD registers into it: every register translated code can change is written back |
| `JitState.WritesBackSimd` | crates/vetro-jit/src/state.rs:438-444 | the same with the SIMD registers, once they were brought in |
| `JitState.HostFieldsStay` | crates/vetro-jit/src/state.rs:220-236 | leaving translated code never writes the host fields, and the SIMD registers only if they were brought in |
| `JitState.VsyncInvisible` | crates/vetro-jit/src/state.rs:438-444 | bringing in the SIMD registers is invisible in the CPU state |
| `JitState.LazyAddVisible` | crates/vetro-jit/src/state.rs:220-236 | a lazily recorded addition shows the interpreter's NZCV when the state goes back |
| `JitState.LazySubVisible` | crates/vetro-jit/src/state.rs:220-236 | the same for a subtraction |
| `Bits.OnesValue` | crates/vetro-cpu/src/bits.rs:24-26 | `ones(n)` is the number `2^n - 1` |
| `Bits.RorBit` | crates/vetro-cpu/src/bits.rs:30-34 | rotation takes bit `i + amount`, around the element, to bit `i` |
| `Bits.Replicate` | crates/vetro-cpu/src/bits.rs:37-45 | the loop gives the copies of the element at the multiples of its size |
| `Bits.Periodic` | crates/vetro-cpu/src/bits.rs:37-45 | an element that fits is repeated with its period |
| `Bits.MaskBits` | crates/vetro-cpu/src/bits.rs:49-71 | both masks are rotated runs of ones of stated length, rotation and period |
| `Bits.LogicalImmediate` | crates/vetro-cpu/src/decode.rs:455-467 | every accepted logical immediate is a rotated run of ones with a period of 2 to 64 bits |
| `Bits.RunIsMixed` | crates/vetro-cpu/src/bits.rs:59-61 | such a run is neither all zeros nor all ones |
| `Bits.EveryRunEncoded` | crates/vetro-cpu/src/bits.rs:49-71 | conversely, every such run has an encoding |
| `Bits.BitfieldIsField` | crates/vetro-cpu/src/exec.rs:227-234 | SBFM/BFM/UBFM: accepted exactly under the guards, and then every bit of the mask form is that of the field definition of section C6.2 of the Arm ARM |
| `Bits.BitfieldMasks` | crates/vetro-cpu/src/decode.rs:481-497 | the masks of an accepted bitfield instruction are one element wide, with R and S as encoded |
| `Exclusive.MonitorHistory` | crates/vetro-cpu/src/exec.rs:519-553 | a monitor is always the trace of the core's own last completed load-exclusive, in every interleaving |
| `Exclusive.SuccessMatches` | crates/vetro-cpu/src/mem.rs:48-61 | a store-exclusive succeeds only if memory holds what its own load-exclusive read, and replaces exactly those bytes |
| `Exclusive.StatusTells` | crates/vetro-cpu/src/exec.rs:536-553 | in every run a store-exclusive puts 0 into its status register exactly if it took place, else 1; memory then holds the bytes of its source registers, else it is unchanged; no other register changes and the monitor is gone |
| `Exclusive.LoadReads` | crates/vetro-cpu/src/exec.rs:519-535 | in every run a load-exclusive puts the little-endian numbers at its address into its one or two registers and changes nothing else |
| `Exclusive.FaultsExactly` | crates/vetro-cpu/src/exec.rs:519-553 | an exclusive faults exactly if it is misaligned or memory refuses the access it makes, and then leaves memory alone |
| `Exclusive.StoreWrites` | crates/vetro-cpu/src/mem.rs:783-800 | a plain store of any core faults exactly if a byte is not writable, changing nothing; otherwise exactly the stored bytes change |
| `Exclusive.OneSuccessPerLoad` | crates/vetro-cpu/src/exec.rs:546-551 | between two successes of a core lies a load-exclusive of it |
| `Exclusive.NoLostUpdate` | crates/vetro-cpu/src/exec.rs:519-553 | increment loops of any number of cores, on single elements and on pairs, that go round until their status register holds 0: the number in memory is the initial one plus the loops that were left, modulo its width |
| `LeBytes.BytesRoundTrip` | crates/vetro-cpu/src/exec.rs:116-124 | reading bytes as a little-endian number and writing it back gives the bytes |
| `LeBytes.ValueRoundTrip` | crates/vetro-cpu/src/exec.rs:116-124 | writing `n` bytes of a number and reading them truncates it to `256^n` |
| `LeBytes.ByteAt` | crates/vetro-cpu/src/exec.rs:116-124 | byte `i` of a number is the one of weight `256^i` |
| `LeBytes.WordIsNumber` | crates/vetro-cpu/src/mem.rs:802-817 | the instruction word of four bytes is their little-endian number, and back |
| `JitBlocks.SignatureInjective` | crates/vetro-jit/src/translate.rs:497-506 | in one page the signature determines the blocks, so modules found by key were compiled from the same words |
| `JitBlocks.World.StepsAfter` | crates/vetro-cpu/src/exec.rs:160-175 | runs of interpreter steps compose, the last may raise an exception |
| `JitBlocks.WordsStay` | crates/vetro-jit/src/driver.rs:184-194 | words of a watched page that is not dirty are unchanged |
| `JitBlocks.ContractsCanBeMet` | crates/vetro-jit/src/driver.rs:4-11 | the contracts of step, discovery and compiled code are consistent |
| `JitCaches.Unpack` | crates/vetro-jit/src/translate.rs:1218-1236 | the dispatcher reads back slot, steps and entry that the host packed |
| `JitCaches.FreshStays` | crates/vetro-jit/src/driver.rs:297-318 | whatever happens to an address space, each hot block is still right or reported dirty |
| `JitCaches.NewCtx` | crates/vetro-jit/src/driver.rs:323-338 | a context nobody used may be given to any space: old jump cache entries never match it |
| `JitCaches.KeepHot` | crates/vetro-jit/src/driver.rs:529-548 | a space keeps its context while its hot blocks stay |
| `JitCaches.InstallJc` | crates/vetro-jit/src/driver.rs:151-157 | writing the entry of a hot block keeps every live entry naming a hot block |
| `JitCaches.InvalidateKeeps` | crates/vetro-jit/src/driver.rs:184-194 | after invalidating a page no hot block is left in it and the others stay |
| `JitCaches.AddEntryKeeps` | crates/vetro-jit/src/driver.rs:551-574 | one step of installing a region keeps the space right and clean |
| `JitDriver.JitCpu.constructor` | crates/vetro-jit/src/driver.rs:269-289 | a new engine: no spaces, no modules, an empty jump cache |
| `JitDriver.JitCpu.Reset` | crates/vetro-jit/src/driver.rs:491-502 | a reset leaves no block of any space, table or jump cache |
| `JitDriver.JitCpu.CompileDispatcher` | crates/vetro-jit/src/driver.rs:504-514 | the dispatcher is there; the spaces are as before or all gone |
| `JitDriver.JitCpu.NextCtx` | crates/vetro-jit/src/driver.rs:323-338 | a context unused by every live space and jump cache entry, also when the numbers wrap |
| `JitDriver.JitCpu.OpenSpace` | crates/vetro-jit/src/driver.rs:340-358 | the space is there, at most one other is evicted, and no space gains a hot block |
| `JitDriver.JitCpu.Evict` | crates/vetro-jit/src/driver.rs:340-358 | the least recently used space goes, the others stay |
| `JitDriver.JitCpu.Drain` | crates/vetro-jit/src/driver.rs:297-318 | after collecting the dirty pages every hot block matches memory, the list is empty |
| `JitDriver.JitCpu.InvalidateAll` | crates/vetro-jit/src/driver.rs:297-318 | the loop over dirty pages leaves no hot block in any of them |
| `JitDriver.JitCpu.Lookup` | crates/vetro-jit/src/driver.rs:529-548 | finds exactly the hot block of `pc`, counts cold ones and changes no hot one |
| `JitDriver.JitCpu.TranslateAt` | crates/vetro-jit/src/driver.rs:577-624 | entries of the region whose words are in memory, compiled now or before; or a reset engine |
| `JitDriver.JitCpu.Install` | crates/vetro-jit/src/driver.rs:551-574 | afterwards the block is hot at `pc` and its page watched, or nothing was discovered there |
| `JitDriver.JitCpu.WriteJc` | crates/vetro-jit/src/driver.rs:151-157 | the entry of `pc` is in the jump cache under the space's context |
| `JitDriver.JitCpu.FindEntry` | crates/vetro-jit/src/translate.rs:1192-1217 | the dispatcher's search finds only the block that is hot at `pc` in this space; the second way never hits |
| `JitDriver.JitCpu.Enter` | crates/vetro-jit/src/driver.rs:243-265 | a region is entered only with its words in memory, and then performs interpreter steps |
| `JitDriver.JitCpu.Dispatch` | crates/vetro-jit/src/translate.rs:1181-1243 | any number of chained regions performs exactly as many interpreter steps as it counted |
| `JitDriver.JitCpu.RunHot` | crates/vetro-jit/src/driver.rs:407-458 | a dispatcher run and the retried instruction are interpreter steps, at least one |
| `JitDriver.JitCpu.RunInterp` | crates/vetro-jit/src/driver.rs:464-483 | the interpreter turn makes at least one step and stays within the budget |
| `JitDriver.JitCpu.Round` | crates/vetro-jit/src/driver.rs:371-484 | one turn: interpreter steps only; if it made none, the next turn is ready; a starved engine stays starved |
| `JitDriver.JitCpu.Run` | crates/vetro-jit/src/driver.rs:361-487 | registers, memory (shared buffers included) and exception are those of `done` calls of `Cpu::step`, `done <= budget`, the whole budget without an exception; it terminates |
| `JitDriver.NeverStarts` | crates/vetro-jit/src/driver.rs:361-487 | the case excluded from termination: an engine that holds one module and compiles at first sight executes nothing, turn after turn |
| `JitSystem.System.Spawn` | crates/vetro-cpu/src/mem.rs:305-313 | a fork gets a new id and no watched pages |
| `JitSystem.System.Kernel` | crates/vetro-jit/src/driver.rs:297-318 | any change of an address space or of the shared buffers by the kernel keeps every space of the JIT right or reported dirty |
| `JitSystem.System.Run` | crates/vetro-jit/src/driver.rs:361-487 | time slices of many processes over one JIT: each sees exactly interpreter steps on its mappings and the common buffers, the others keep their mappings, no stale region is ever entered |
| `OpBuf.WalkEncode` | crates/vetro-gfxstream/src/exec.rs:278-287 | the executor's walk sees exactly the ops that were packed, in order |
| `OpBuf.CountOps` | crates/vetro-gfxstream/src/exec.rs:217-228 | the null executor counts every op once |
| `OpBuf.NumberIs` | crates/vetro-gfxstream/src/exec.rs:26-67 | each state op travels under its own number, counted through the list of codes |
| `OpBuf.Batch.Push` | crates/vetro-gfxstream/src/exec.rs:278-287 | appends one op and keeps the earlier ones |
| `OpBuf.Batch.AddBlob` | crates/vetro-gfxstream/src/exec.rs:290-295 | the data stand at an 8-aligned offset and earlier references stay valid |
| `OpBuf.Batch.PushBlob` | crates/vetro-gfxstream/src/exec.rs:298-315 | an op with a blob reference: offset and length find exactly the data |
| `GlState.NothingBound` | crates/vetro-gfxstream/src/state.rs:117-159 | in a new context nothing is bound and of the capabilities only dithering is on |
| `GlState.DrawsPlainly` | crates/vetro-gfxstream/src/state.rs:117-159 | the other initial values, as OpenGL ES has them |
| `GlState.PositionIs` | crates/vetro-gfxstream/src/state.rs:26-66 | the slot functions return the first place of an enumerant, or None exactly if it is absent |
| `Transition.Stream.TextureUnits` | crates/vetro-gfxstream/src/state.rs:251-271 | all units and samplers arrive although BindTexture hits the selected unit; the selected unit is right in the end |
| `Transition.Stream.Ubos` | crates/vetro-gfxstream/src/state.rs:278-282 | the indexed bindings arrive as the executor can express them; generic bindings other than UNIFORM_BUFFER stay |
| `Transition.Stream.Buffers` | crates/vetro-gfxstream/src/state.rs:283-289 | the generic bindings arrive, UNIFORM_BUFFER included, after the indexed ones disturbed it |
| `Transition.Transition` | crates/vetro-gfxstream/src/state.rs:165-312 | on any WebGL state that agrees with `from`, the ops lead exactly to the described state |
| `Transition.ArrivesUpToZero` | crates/vetro-gfxstream/src/state.rs:165-312 | that state is `to`, up to the sign of zero, if and only if every indexed binding that changes fits 32 bits and has no offset without a size |
| `Transition.ArrivesExactly` | crates/vetro-gfxstream/src/state.rs:165-312 | it is `to` bit for bit if and only if moreover no group of floats changes in signs of zeros alone |
| `Transition.SignOfZeroStays` | crates/vetro-gfxstream/src/state.rs:208-210 | a concrete pair: 0 to -0 emits nothing |
| `Transition.OffsetWithoutSize` | crates/vetro-gfxstream/src/state.rs:278-282 | a concrete pair: an offset with size 0 is lost |
| `GlCalls.Recorded` | crates/vetro-gfxstream/src/gl.rs:1393-1642 | for every state-setting call with valid arguments, what the decoder records is what its ops do to WebGL |
| `GlCalls.InvalidDiffers` | crates/vetro-gfxstream/src/gl.rs:1600-1614 | for an indexed buffer call with other arguments the record differs from WebGL in some state |
| `GlCalls.ChangeSame` | crates/vetro-gfxstream/src/gl.rs:508-517 | a recorded call keeps the context and the mirror in agreement |
| `GlEffects.ChangeDoes` | crates/vetro-gfxstream/src/gl.rs:1393-1642 | what the decoder records for each call, by field and argument: the named field gets the argument and every other stays |
| `GlEffects.OpsDo` | crates/vetro-gfxstream/src/gl.rs:1393-1642 | what the ops of each call do to any WebGL state, by field and argument; unknown targets and indices change nothing, an external texture is bound as a 2D one |
| `GlContexts.Gl.constructor` | crates/vetro-gfxstream/src/gl.rs:333-355 | no contexts; the mirror is the initial WebGL state |
| `GlContexts.Gl.ContextCreate` | crates/vetro-gfxstream/src/gl.rs:903-940 | a context in the initial state; WebGL is not touched |
| `GlContexts.Gl.Activate` | crates/vetro-gfxstream/src/gl.rs:496-506 | WebGL has the state of the thread's context, or there is none |
| `GlContexts.Gl.Record` | crates/vetro-gfxstream/src/gl.rs:508-517 | context and mirror change alike, and the ops sent make WebGL follow |
| `GlContexts.Gl.StateCall` | crates/vetro-gfxstream/src/gl.rs:1393-1642 | the call does to the context, to its reference and to WebGL what it means by field and argument; nothing else changes, so the context is where its own calls alone would have taken it |
| `GlContexts.Gl.BindFramebuffer` | crates/vetro-gfxstream/src/gl.rs:1129-1159 | the draw and read bindings named by the target, and no others, get the object, or for name 0 the surfaces of the context, in the context, its reference and WebGL; later surfaces follow exactly those bound by name 0 |
| `GlContexts.Gl.MakeCurrent` | crates/vetro-gfxstream/src/gl.rs:1017-1054 | the four fields that depend on the surfaces (both framebuffers where the surface is bound, viewport and scissor the first time) reach the context, and WebGL at once if it reflects that context; nothing else changes, and a refused call changes nothing |
| `GlContexts.Gl.Draw` | crates/vetro-gfxstream/src/gl.rs:1384-1389 | at every draw, clear or readback WebGL has the state that the thread's own calls alone would have given, whatever the other threads did; the executor gets there by walking the words of the batch, of which the draw is the last op |
| `GlContexts.Gl.Flush` | crates/vetro-gfxstream/src/gl.rs:397-416 | walking over the words handed over takes the executor from where it was to the state of the mirror |
| `GlContexts.Gl.BatchRun` | crates/vetro-gfxstream/src/gl.rs:407-416 | the batch holds exactly the ops the executor has not got |
| `GlContexts.Gl.PlayedRun` | crates/vetro-gfxstream/src/gl.rs:496-517 | the WebGL state is the one after all ops sent so far |
| `ShaderLifetime.Fresh` | crates/vetro-gfxstream/src/gl.rs:25-32 | the search around the name range ends with an unused nonzero name |
| `ShaderLifetime.DeletedOnce` | crates/vetro-gfxstream/src/gl.rs:391-395 | after its deletion no object is mentioned again, so none is deleted twice |
| `ShaderLifetime.Recounted` | crates/vetro-gfxstream/src/gl.rs:1745-1754 | changing one list changes one count by one |
| `ShaderLifetime.DetachKeeps` | crates/vetro-gfxstream/src/gl.rs:1751-1754 | after detaching, counts and lists are right, and a count of 0 means that no program lists the shader |
| `ShaderLifetime.Paid` | crates/vetro-gfxstream/src/gl.rs:1789-1797 | one step of counting down the list of a deleted program |
| `ShaderLifetime.Share.NewShader` | crates/vetro-gfxstream/src/gl.rs:1692-1709 | a new shader with count 0 under an unused name and the next host id; all invariants kept |
| `ShaderLifetime.Share.NewProgram` | crates/vetro-gfxstream/src/gl.rs:1711-1718 | a new program with an empty list; all invariants kept |
| `ShaderLifetime.Share.Attach` | crates/vetro-gfxstream/src/gl.rs:1736-1750 | a shader not yet listed is appended to the list and its count grows by one; a listed one changes nothing; the host call is sent either way |
| `ShaderLifetime.Share.Detach` | crates/vetro-gfxstream/src/gl.rs:1751-1763 | the list loses exactly this shader; it is deleted exactly if it waited for this, otherwise its count falls by one; the calls sent are stated in order |
| `ShaderLifetime.Share.RemoveShader` | crates/vetro-gfxstream/src/gl.rs:1765-1777 | deleted at once if unattached, otherwise pending |
| `ShaderLifetime.Share.RemoveProgram` | crates/vetro-gfxstream/src/gl.rs:1778-1806 | the program goes, and with it exactly the pending shaders it was the last to list; every other shader keeps its state but for one count if it was listed; the deletions are sent in the order of the list; the current program only becomes pending |
| `ShaderLifetime.Share.Destroy` | crates/vetro-gfxstream/src/gl.rs:942-988 | at the end of the share group every object ever given out was deleted, none twice |
| `ShaderLifetime.LogDelete` | crates/vetro-gfxstream/src/gl.rs:391-395 | a deletion keeps the account of host ids: each one given out is live under a name or deleted |
| `Wire.EncodeCall` | crates/vetro-gfxstream/src/guest.rs:39-61 | the loop builds one packet out of the arguments |
| `Wire.ArgLayout` | crates/vetro-gfxstream/src/guest.rs:39-61 | an argument on the wire: scalars of 1, 2, 4 or 8 bytes lowest first, a length of 4 bytes and then the data, or a size of 4 bytes |
| `Wire.BodyLayout` | crates/vetro-gfxstream/src/guest.rs:39-61 | the arguments stand one behind the other |
| `Wire.PacketLayout` | crates/vetro-gfxstream/src/guest.rs:39-61 | a packet starts with its opcode and its whole length, 4 bytes each |
| `Wire.Decode` | crates/vetro-gfxstream/src/wire.rs:49-72 | the loop computes the decoding, None on a short packet |
| `Wire.RoundTrip` | crates/vetro-gfxstream/src/wire.rs:38-72 | decoding an encoded call returns opcode, length and arguments (scalars cut to their width), for every parameter list |
| `RenderPipe.DecodeCalls` | crates/vetro-gfxstream/src/gl.rs:3011-3058 | the loop performs all complete calls of a buffer, with their replies |
| `RenderPipe.Performs` | crates/vetro-gfxstream/src/gl.rs:3038-3056 | a known call that decodes is performed once with the decoded arguments; it replies exactly if it returns something or fills a buffer |
| `RenderPipe.PassesOver` | crates/vetro-gfxstream/src/gl.rs:3032-3041 | an unknown or short call is passed over: no effect and no reply |
| `RenderPipe.ReplyIs` | crates/vetro-gfxstream/src/wire.rs:186-191 | a reply is the out buffers one behind the other and then the low bytes of the result |
| `RenderPipe.ConsumeSplit` | crates/vetro-gfxstream/src/gl.rs:3011-3058 | decoding a part and then the rest is decoding both at once, for streams in which no malformed header is followed by more bytes |
| `RenderPipe.SentArrive` | crates/vetro-gfxstream/src/guest.rs:39-61 | a stream of encoded calls is well-formed and yields exactly those calls, in order |
| `RenderPipe.CutsDoNotMatter` | crates/vetro-gfxstream/src/lib.rs:212-239 | any way of cutting such a stream gives the same calls, replies and pending bytes |
| `RenderPipe.CutsMatterUnlessSafe` | crates/vetro-gfxstream/src/gl.rs:3015-3019 | every cutting gives what the stream gives in one piece if and only if no malformed header is followed by more bytes |
| `RenderPipe.MalformedDependsOnCuts` | crates/vetro-gfxstream/src/gl.rs:3015-3019 | a call behind a malformed header is performed or not, depending on the cuts |
| `RenderPipe.VCtx.Write` | crates/vetro-gfxstream/src/lib.rs:157-243 | however the stream, service name and flags included, is cut into writes below the limit, calls and replies are those of the whole; beyond it the pending input is dropped |
| `RenderPipe.VCtx.Receive` | crates/vetro-gfxstream/src/lib.rs:212-239 | the render branch of one write |
| `GlslExpr.Expr.Unary` | crates/vetro-gfxstream/src/glsl.rs:222-261 | the cursor method computes the recursive description and ends on every token list |
| `GlslExpr.Expr.Binary` | crates/vetro-gfxstream/src/glsl.rs:262-292 | the climbing loop computes the recursive description and ends on every token list |
| `GlslExpr.EvaluatesTrees` | crates/vetro-gfxstream/src/glsl.rs:206-292 | every expression tree, printed with only the parentheses that precedence and left associativity need, evaluates to its value and exactly its tokens are consumed |
| `GlslExpr.TighterFirst` | crates/vetro-gfxstream/src/glsl.rs:262-292 | `a op b op2 c` for every pair of operators: the one of the later group in the list of precedences goes first, within a group the left one |
| `GlslExpr.PrecIsGroup` | crates/vetro-gfxstream/src/glsl.rs:210-221 | the seven groups of binary operators, loosest first |
| `GlslExpr.RelationsMean` | crates/vetro-gfxstream/src/glsl.rs:271-279 | comparisons and connectives are 1 exactly if they hold, else 0 |
| `GlslExpr.SumsMean` | crates/vetro-gfxstream/src/glsl.rs:282-284 | sums, differences and products are right modulo `2^64`, and exact where they fit |
| `GlslExpr.QuotientsMean` | crates/vetro-gfxstream/src/glsl.rs:285-286 | quotient and remainder are those of division toward zero, and 0 where it is undefined |
| `GlslExpr.ShiftsMean` | crates/vetro-gfxstream/src/glsl.rs:280-281 | shifts by the low six bits multiply modulo `2^64` and divide rounding down |
| `GlslExpr.UnaryMeans` | crates/vetro-gfxstream/src/glsl.rs:240-255 | what the prefix operators compute |
| `GlslExpr.QuotRange` | crates/vetro-gfxstream/src/glsl.rs:285-286 | division toward zero stays in range and leaves a remainder smaller than the divisor |
| `GlslPreprocess.ExpandInto` | crates/vetro-gfxstream/src/glsl.rs:377-388 | appends the expansion of a token, to a depth of 16 |
| `GlslPreprocess.Eval` | crates/vetro-gfxstream/src/glsl.rs:390-409 | answers `defined`, expands, and evaluates |
| `GlslPreprocess.IfdefAsks` | crates/vetro-gfxstream/src/glsl.rs:338-342 | `#ifdef` and `#ifndef` ask whether the name is a macro |
| `GlslPreprocess.IfAsks` | crates/vetro-gfxstream/src/glsl.rs:390-409 | `#if`: `defined` asks whether the name is a macro, a number macro counts its number, any other name 0 |
| `GlslPreprocess.DefinedAsks` | crates/vetro-gfxstream/src/glsl.rs:394-407 | in any condition `defined X` and `defined(X)` are answered by 1 or 0 and the rest is resolved by itself |
| `GlslPreprocess.MacroReplaced` | crates/vetro-gfxstream/src/glsl.rs:377-388 | a macro is replaced by its tokens |
| `GlslPreprocess.OneStays` | crates/vetro-gfxstream/src/glsl.rs:377-388 | tokens that are no macros stay |
| `GlslPreprocess.TextAppends` | crates/vetro-gfxstream/src/glsl.rs:367-372 | an active line of text is appended, an inactive one does nothing |
| `GlslPreprocess.DefineBinds` | crates/vetro-gfxstream/src/glsl.rs:322-332 | an active `#define` binds exactly its name, to the rest of the line |
| `GlslPreprocess.UndefRemoves` | crates/vetro-gfxstream/src/glsl.rs:333-337 | an active `#undef` removes exactly its name |
| `GlslPreprocess.VersionSets` | crates/vetro-gfxstream/src/glsl.rs:316-321 | `#version` sets the version and its macro, active or not |
| `GlslPreprocess.OnlyDeclared` | crates/vetro-gfxstream/src/glsl.rs:315-364 | no other line touches the macros or the version |
| `GlslPreprocess.Defaults` | crates/vetro-gfxstream/src/glsl.rs:298-301 | a shader that declares nothing has version 100 and exactly the two predefined macros |
| `GlslPreprocess.Preprocess` | crates/vetro-gfxstream/src/glsl.rs:296-375 | the loop over lines computes the line-by-line description |
| `GlslPreprocess.Sleeps` | crates/vetro-gfxstream/src/glsl.rs:308-371 | in an inactive branch nothing happens at any depth but its `#version` lines: no line, no other macro |
| `GlslPreprocess.Seeks` | crates/vetro-gfxstream/src/glsl.rs:347-362 | a chain of #elif and #else takes the first branch that holds and closes |
| `GlslPreprocess.SelectsTree` | crates/vetro-gfxstream/src/glsl.rs:296-375 | the conditional stack emits exactly what the nested tree selects: of each conditional the first true branch, and of the others the `#version` lines |
| `GlslNesting.SelectsNested` | crates/vetro-gfxstream/src/glsl.rs:302-365 | lines come from a tree of conditionals exactly if every conditional is closed and no `#elif` or `#else` follows an `#else`; then the preprocessor emits what the tree means |
| `GlslPreprocess.PassedIs` | crates/vetro-gfxstream/src/glsl.rs:316-345 | a tree that is not selected emits nothing and changes no macro but `__VERSION__` |
| `GlslPreprocess.VersionIgnoresBranches` | crates/vetro-gfxstream/src/glsl.rs:316-321 | an unselected branch has no effect, wherever it stands, if and only if it contains no `#version` |
| `HostFwd.StepKeeps` | crates/vetro-cli/src/hostfwd.rs:147-345 | every atomic step of reader, channel, main loop and writer, failing reads and writes included, keeps the invariant, for any number of clients |
| `HostFwd.InOrder` | crates/vetro-cli/src/hostfwd.rs:239-262 | the guest gets an in-order, loss-free, duplicate-free prefix of what was read; the rest is in bridge, channel and reader; the socket gets bytes of the guest in order, and a prefix of them if no write failed |
| `HostFwd.ShutdownOnceAtEnd` | crates/vetro-cli/src/hostfwd.rs:259-262 | Shutdown at most once, and only after every byte that was or will be read was accepted |
| `HostFwd.CountersBounded` | crates/vetro-cli/src/hostfwd.rs:36-41 | `read_ahead` is exact (queued plus pending) and below READ_AHEAD + 64 KiB, `write_behind` below WRITE_BEHIND + 64 KiB; neither goes negative, also after the bridge is gone |
| `HostFwd.ReaderSends` | crates/vetro-cli/src/hostfwd.rs:296-322 | the counted bytes go into the channel behind the earlier ones |
| `HostFwd.GuestAccepts` | crates/vetro-cli/src/hostfwd.rs:246-258 | the accepted prefix of `pending` is appended to what the guest has |
| `HostFwd.ShutOk` | crates/vetro-cli/src/hostfwd.rs:259-262 | when the guest is told of the end, it has everything |
| `HostFwd.AcceptStarts` | crates/vetro-cli/src/hostfwd.rs:173-203 | an accepted client gets a bridge at the end of the list with nothing pending and nothing told, and a reader if its socket could be cloned; the others are untouched |
| `HostFwd.ServiceStarts` | crates/vetro-cli/src/hostfwd.rs:205-235 | serving starts with the first bridge of the list |
| `HostFwd.OfferMoves` | crates/vetro-cli/src/hostfwd.rs:246-258 | an offer moves exactly the accepted bytes from the bridge to the guest and takes them off `read_ahead` |
| `HostFwd.ChunkQueued` | crates/vetro-cli/src/hostfwd.rs:263-270 | what the guest sent is counted and queued for the client, chunk after chunk, until there is none or the writer is too far behind |
| `HostFwd.ShutTells` | crates/vetro-cli/src/hostfwd.rs:259-262 | an exchange that finds the end of the stream and nothing pending tells the guest, if it did not before; otherwise it does not |
| `HostFwd.FinishTells` | crates/vetro-cli/src/hostfwd.rs:271-294 | what the client is told at the end of an exchange, by the reason of the closing; the bridge stays exactly while the connection is open or still holds bytes of the guest, and the next one of the list is served |
| `HostFwd.BrokenDrops` | crates/vetro-cli/src/hostfwd.rs:239-244 | a client that broke off is dropped and cut off |
| `HostFwd.EndIsReal` | crates/vetro-cli/src/hostfwd.rs:296-322 | in every run the guest is told of the end only if it was read, and a client is taken for broken only if a read failed |
| `HostFwd.WriterTakes` | crates/vetro-cli/src/hostfwd.rs:325-345 | the writer takes the queued messages in order |

## Left out

- Translation of instructions, the SIMD modules, system mode, the MMU and the engine itself: the JIT driver sees them through the contracts of `World`. A fault exit may leave memory partly written; the contract asks that the retried instruction has the outcome it would have had.
- JitDriver.JitCpu.Run: requires that the engine holds two modules after a reset, or a threshold of two, because otherwise it need not terminate.
- The byte layout of `JitState` in engine memory (`store`, `load`), statistics and measurement fields.
- Truncation of a shared file while it is mapped is one of the changes of the buffers that `JitSystem.System.Kernel` allows; the file system behind the buffers is not modelled.
- UserMemory.UserMemory.RemapDontunmap: requires disjoint ranges. Its one caller refuses others (crates/vetro-cli/src/linux/mm.rs:210-214) or takes a hole (`HoleIsApart`); with overlapping ones the regions could overlap.
- The populated flag (`populate`), `page_present`, `maps`, `may_write`, `shared_key` and other read-only queries of `UserMemory`: easy members.
- Stack pointer alignment checks of exclusive accesses.
- Validity of enumerants in WebGL: the machine stores what it is given, and ignores unknown targets and indices. Object deletion, `unbind_everywhere`, `rcBindTexture`, destroying contexts and surfaces, and the vertex array state.
- GlContexts.Gl.ContextCreate: handles count up in the model; the source searches for an unused one, which differs only after deletions.
- The draw, buffer, texture and query calls themselves, when batches are flushed (`maybe_flush`), what their blobs hold, and the executor's object table.
- ShaderLifetime.Fresh: requires that a name is left; with all 2^32 - 1 names in use the source would search for ever. Host ids count up without end; the source's 32-bit counter is not wrapped.
- Several share groups and which contexts refer to them: one group is modelled, up to its end.
- The lookup of opcodes in the two call tables is a function of the `Host` parameter; argument access (`Args`) and the filling of reply buffers are part of what a call does.
- RenderPipe.VCtx.Write: makes no claim about the process pipe, which drops partial input by design, nor about streams in which bytes follow a malformed header, of which it is false (`CutsMatterUnlessSafe`).
- Lexing, comments and line splicing: the preprocessor model starts from lines of tokens. Declarations, struct and block scanning of shaders.
- GlslPreprocess.SelectsTree: says nothing about lines that are not nested (`GlslNesting.SelectsNested`); for those the preprocessor is only described line by line.
- Sockets, threads and the network stack in port forwarding are the nondeterminism of the steps; the order of data and FIN towards the client, `parse_rule` and console inputs are not modelled.
