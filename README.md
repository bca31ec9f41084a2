# PSX-with-JIT: the recompiler core, in Dafny

This project models the dynamic recompiler of a PlayStation (MIPS R3000)
emulator and the CPU driver around it:

- **CPURecompiler** (`src/cpu/cpu_recomp_core.cpp`, `.h`). Its parts are:
  - a first-fit allocator over one executable region: a list of `MemBlock`
    headers, each followed by its payload;
  - `EmitInstruction`, which estimates the host bytes each guest word needs
    and queues the word;
  - `CompileBlock`, which evicts the least used cached block when 32 are
    held, looks the guest pc up in the block cache, and otherwise allocates
    and records a new block;
  - the effect of the emitted code on the guest globals. Each instruction
    runs the program-counter advance, the opcode's emitter, then the
    load-delay handler.
- **CPU state** (`src/cpu/cpu_core.h`): the register file, coprocessor 0, the
  pc / next_pc pair, the two load-delay slots, `HandleLoadDelay` and
  `GetRegName`.
- **CPU driver** (`src/cpu/cpu_core.cpp`): the constructor's reset state and
  `Clock`. `Clock` reads words from the BIOS into the recompiler until the
  cycle budget runs out, or until a control transfer and its delay slot have
  been read. It then compiles or finds the block for the guest pc and runs it.
- **Bus helpers** (`src/memory/Bus.h`): region masking, the BIOS-only
  `read<T>`, and `write<T>`, which ignores a few hardware registers and fails
  on any other address.

The modules are:

- `Failure`: the fatal paths, where the source calls `exit(1)` or `panic`.
- `Opcode`: the instruction word, its fields, the dispatch, `ModifiesPC` and
  the size table.
- `CpuState`: the guest globals and the load-delay handler.
- `Bus`: the bus helpers.
- `Emit`: the effect of the emitted code.
- `MemBlocks`: specification functions for the allocator.
- `BlockCache`: the compiled-block vector.
- `Recompiler`: the recompiler state as a value, its invariant, and the class
  `CPURecompiler`. The class's methods are proved against the specification
  functions.
- `CpuDriver`: the class `CPU` and its `Clock`.

Every fatal path of the source becomes an `Err`/`Fail` value carrying the
condition. A state-changing method promises nothing further on that path,
just as the process ends there.

The allocator list is a sequence in address order. A block's header offset is
the extent of the blocks before it, so the `next`/`prev` links are the
sequence order. The header size `h` stays a parameter, and the CPU object
instantiates it as 32 bytes.

The recompiler keeps a global invariant `Recompiler.Inv`:

- the block list tiles the whole mapped region;
- no two free blocks are adjacent;
- every used block carries the magic;
- the payloads in use are exactly the allocations of the cached blocks;
- cache keys and allocations are distinct;
- `cur_size` equals 25 plus the estimate of the pending words;
- at most 32 blocks are cached.

## Model

| member | source | states |
|---|---|---|
| Opcode.DecodeEncodeR | src/cpu/cpu_recomp_core.cpp:133-165 | decoding an R-form word built from opcode, rs, rt, rd, sa and func gives back exactly those fields |
| Opcode.DecodeEncodeI | src/cpu/cpu_recomp_core.cpp:133-165 | decoding an I-form word gives back its opcode, rs, rt and 16-bit immediate |
| Opcode.DecodeEncodeJ | src/cpu/cpu_recomp_core.cpp:133-165 | decoding a J-form word gives back its opcode and 26-bit target |
| Opcode.EncodeDecodeR | src/cpu/cpu_recomp_core.cpp:133-165 | every word is rebuilt from its R-form fields, so the r_type view loses no bit |
| Opcode.EncodeDecodeI | src/cpu/cpu_recomp_core.cpp:133-165 | every word is rebuilt from its I-form fields |
| Opcode.EncodeDecodeJ | src/cpu/cpu_recomp_core.cpp:133-165 | every word is rebuilt from its J-form fields |
| Opcode.FieldsOverlap | src/cpu/cpu_recomp_core.cpp:133-165 | the views of the union share bits: imm is rd, sa and func side by side, and target is rs, rt and imm |
| Opcode.ModifiesPCExactlyControlTransfer | src/cpu/cpu_recomp_core.cpp:669-693 | on every word the dispatch accepts, ModifiesPC holds exactly for jr, j, jal, beq and bne; the all-zero nop does not end a block |
| Opcode.Estimate | src/cpu/cpu_recomp_core.cpp:722-723 | every queued word reserves at least the 45 bytes of the pc advance and the load-delay call |
| Recompiler.EstimateAppend | src/cpu/cpu_recomp_core.cpp:718-804 | queuing a supported word grows the estimate by exactly 45 plus its table entry |
| CpuState.HandleLoadDelay | src/cpu/cpu_core.h:107-114 | the active slot's data lands in its register; the other registers, cop0, pc and next_pc are unchanged; the staged slot becomes active and the staged slot is cleared |
| CpuState.HandleLoadDelayIdle | src/cpu/cpu_core.h:107-114 | with both slots empty, the handler's only effect is to write 0 to register 0 |
| CpuState.StagedWriteLandsOnSecondHandler | src/cpu/cpu_core.h:105-114 | a value staged in next_load_delay is not visible after the first handler call and is visible after the second |
| CpuState.GetRegName | src/cpu/cpu_core.h:24-95 | registers 0..31 get their ABI names in order; the result is "$NA" exactly when the index is out of range |
| Bus.MaskRegion | src/memory/Bus.h:14-23 | masking never increases an address |
| Bus.MaskRegionKeepsOffset | src/memory/Bus.h:14-23 | masking keeps the low 29 bits, the offset within the segment |
| Bus.MaskRegionSamples | src/memory/Bus.h:15-22 | the KUSEG, KSEG0 and KSEG1 aliases of one address map to the same physical address; the reset vector maps to 0x1FC00000 |
| Bus.MaskRegionIdempotent | src/memory/Bus.h:14-23 | masking an already masked address changes nothing |
| Bus.PassThroughUnchanged | src/memory/Bus.h:15-22 | addresses outside KSEG0 and KSEG1 pass through unmasked |
| Bus.MaskedIsPassThrough | src/memory/Bus.h:15-22 | a masked address never lies in KSEG0 or KSEG1 |
| Bus.Read | src/memory/Bus.h:26-35 | a read succeeds exactly when all its bytes lie in the BIOS image after masking; otherwise it fails with the masked address |
| Bus.BiosOffset | src/memory/Bus.h:31-32 | the index into the image plus the access width stays within the 0x80000-byte image |
| Bus.ReadInWindow | src/memory/Bus.h:29-32 | every read Read admits also passes the source's own guard |
| Bus.ReadByte | src/memory/Bus.h:29-32 | a one-byte read in the window returns the image byte at the masked offset |
| Bus.ReadGuardAdmitsOverrun | src/memory/Bus.h:31-32 | the guard as written admits a 4-byte read at 0xBFC7FFFD that runs past the image; Read refuses it |
| Bus.AlignedGuardsAgree | src/memory/Bus.h:31 | for an access aligned to its width, the guard as written and Read's guard agree |
| Bus.Write | src/memory/Bus.h:37-48 | a write passes exactly when the unmasked address is an ignored timing, RAM-size or cache-control register; otherwise it fails with that address |
| Bus.Write32 | src/memory/Bus.h:50 | the 32-bit store is the generic write at width 4, so it follows Write's accept-or-fail rule |
| Bus.WriteDoesNotMask | src/memory/Bus.h:37-50 | the write path does not mask: the KSEG1 alias of the RAM-size register is fatal |
| Emit.Sext16Bits | src/cpu/cpu_recomp_core.cpp:283-293 | the (int16_t) sign extension keeps the low half and fills the high half with bit 15 |
| Emit.JumpTargetInSegment | src/cpu/cpu_recomp_core.cpp:210-220 | a j target keeps the top four bits of next_pc, is word aligned, and its low 28 bits are the target field shifted by 2 |
| Emit.ExecMemory | src/cpu/cpu_recomp_core.cpp:303-431 | lb/lw read at regs[rs] + sext(imm) with Read8/Read32 and stage (rt, the value read), changing nothing else, or fail with the read's error; sb/sh/sw with the cache isolated change nothing; otherwise they hand regs[rt] to Write8/16/32 at that address and succeed, with no change, exactly when the write passes, or fail with its error |
| Emit.Exec | src/cpu/cpu_recomp_core.cpp:561-648 | an unknown word is Undecodable; only loads and stores can fail; no emitter touches the active slot; only branches change pc, only jumps change next_pc, only mtc0 changes cop0, and only loads stage a load |
| Emit.StepAdvancesPC | src/cpu/cpu_recomp_core.cpp:193-202 | for a word that does not modify pc, a step sets pc to the old next_pc and advances next_pc by 4 |
| Emit.StepIgnoresPc | src/cpu/cpu_recomp_core.cpp:193-202 | a step does not depend on the incoming pc, which the pc advance overwrites |
| Emit.NopStep | src/cpu/cpu_recomp_core.cpp:561-565 | a nop step is the pc advance followed by the load-delay handler |
| Emit.AluStep | src/cpu/cpu_recomp_core.cpp:283-301 | an ALU word (addu, or, sltu, addi, addiu, andi, ori, lui) advances pc, writes its result to rd or rt, then runs the handler |
| Emit.LuiStep | src/cpu/cpu_recomp_core.cpp:295-301 | lui $t0, 0x1234 leaves 0x12340000 in register 8 with both slots empty |
| Emit.OriStep | src/cpu/cpu_recomp_core.cpp:444-453 | ori $t0, $t0, 0x56 on 0x12340000 leaves 0x12340056 in register 8 |
| Emit.LuiOriBuildsConstant | src/cpu/cpu_recomp_core.cpp:555-652 | the two-word block lui/ori loads the 32-bit constant 0x12340056 into $t0 |
| Emit.LoadExec | src/cpu/cpu_recomp_core.cpp:303-359 | a load emitter changes nothing but the staged slot, which it sets to (rt, the value the bus returns at regs[rs] + sext(imm)) |
| Emit.LoadLatency | src/cpu/cpu_recomp_core.cpp:303-359 | after a load step the registers are exactly those the handler leaves; the active slot is (rt, the value the bus returns at regs[rs] + sext(imm)), the staged slot is empty, and the next handler writes it |
| Emit.LoadStepFails | src/cpu/cpu_recomp_core.cpp:303-359 | a load step fails exactly when the bus read at regs[rs] + sext(imm) fails, and with its error |
| Emit.LoadedValueAfterDelaySlot | src/cpu/cpu_recomp_core.cpp:303-359 | after the instruction following a load, rt holds the value the bus returned at regs[rs] + sext(imm) |
| Emit.StepKeepsActiveSlot | src/cpu/cpu_recomp_core.cpp:651 | after any step, the register of the slot that was active holds that slot's data |
| Emit.ZeroRegisterRestored | src/cpu/cpu_recomp_core.cpp:651 | with no load pending, register 0 is zero after any step |
| Emit.BranchStep | src/cpu/cpu_recomp_core.cpp:239-281 | a beq or bne step never fails: it advances pc, then runs the handler, and pc ends at next_pc + sext(imm << 2) when beq finds rs = rt or bne finds rs != rt, else at next_pc |
| Emit.BranchStepIsNopUpToPc | src/cpu/cpu_recomp_core.cpp:239-281 | a branch step equals a nop step in everything but pc |
| Emit.BranchHasNoLastingEffect | src/cpu/cpu_recomp_core.cpp:239-281 | a branch followed by any word runs exactly like a nop followed by that word: the branch writes pc, which the next pc advance overwrites |
| Emit.JumpStep | src/cpu/cpu_recomp_core.cpp:210-220 | a j step never fails and sets next_pc to the jump target |
| Emit.JumpLandsOnTarget | src/cpu/cpu_recomp_core.cpp:210-220 | after j and its delay slot, pc is the jump target |
| Emit.JalLinks | src/cpu/cpu_recomp_core.cpp:222-237 | jal never fails and leaves the return address (the delay slot's next_pc) in $ra |
| Emit.StoreSuppressed | src/cpu/cpu_recomp_core.cpp:373-382 | with bit 16 of cop0 register 12 set, a store leaves the guest unchanged and cannot fail |
| Emit.StoreStep | src/cpu/cpu_recomp_core.cpp:361-431 | with the cache not isolated, a store step hands regs[rt] to the bus at regs[rs] + sext(imm) at the store's width; an accepted write leaves only the pc advance and the handler, a refused one is fatal with its error |
| Emit.SwThroughWrite32 | src/cpu/cpu_recomp_core.cpp:409-431 | when the 32-bit store is Bus::Write32, sw with the cache not isolated succeeds exactly at an address write<T> ignores, and otherwise fails with that unmasked address |
| Emit.JrStep | src/cpu/cpu_recomp_core.cpp:455-463 | jr never fails, sets next_pc to regs[rs] and pc to the old next_pc |
| Emit.Mtc0Step | src/cpu/cpu_recomp_core.cpp:518-526 | mtc0 never fails and copies regs[rt] into cop0[rd], leaving the other cop0 registers as they were |
| Emit.RunBlockAppend | src/cpu/cpu_recomp_core.cpp:555-652 | running a concatenation of words runs the first part and then the second, stopping at the first fatal call |
| BlockCache.NewBlock | src/cpu/cpu_recomp_core.h:50-56 | a new block starts with one hit, its allocation, its guest address and its code |
| BlockCache.LeastUsed | src/cpu/cpu_recomp_core.cpp:700-710 | the chosen entry has the least hit count, and every earlier entry has strictly more hits |
| BlockCache.Remove | src/cpu/cpu_recomp_core.cpp:714 | erasing an entry keeps the order of the others |
| BlockCache.Lookup | src/cpu/cpu_recomp_core.cpp:534-541 | a hit is the first entry keyed by pc; a miss means no entry is keyed by pc |
| BlockCache.Hit | src/cpu/cpu_recomp_core.cpp:538 | only the hit count of the chosen entry changes, by one |
| BlockCache.RemoveDistinct | src/cpu/cpu_recomp_core.cpp:712-714 | erasing an entry keeps keys and allocations distinct and gives up exactly its allocation and its key |
| BlockCache.HitDistinct | src/cpu/cpu_recomp_core.cpp:538 | counting a hit keeps the keys, the allocations and their distinctness |
| BlockCache.AppendDistinct | src/cpu/cpu_recomp_core.cpp:546-551 | appending a block with a new key and a new allocation keeps the cache free of duplicates and adds exactly its allocation |
| MemBlocks.FirstFit | src/cpu/cpu_recomp_core.cpp:31-33 | the result is the first free block at least as large as the request; none means no block fits |
| MemBlocks.Locate | src/cpu/cpu_recomp_core.cpp:63 | the result is the block whose payload starts at the pointer; none means no block's payload does |
| MemBlocks.AllocFirstFit | src/cpu/cpu_recomp_core.cpp:27-59 | allocation fails with OutOfMemory(size) exactly when no free block fits; otherwise it returns the payload of the first fitting block |
| MemBlocks.AllocBlockHoldsRequest | src/cpu/cpu_recomp_core.cpp:49-53 | the block handed out is used, carries the magic, holds at least the request, and its payload is the returned pointer |
| MemBlocks.TakeShape | src/cpu/cpu_recomp_core.cpp:35-51 | taking a block keeps its span and makes exactly one payload used; any split remainder is free |
| MemBlocks.AllocExtent | src/cpu/cpu_recomp_core.cpp:35-47 | allocation keeps the extent of the list, so it still tiles the region |
| MemBlocks.AllocUsed | src/cpu/cpu_recomp_core.cpp:27-59 | the returned pointer was not in use, and the set of payloads in use grows by exactly that pointer |
| MemBlocks.AllocKeepsInvariants | src/cpu/cpu_recomp_core.cpp:27-59 | allocation keeps "no two adjacent free blocks" and "magic on every used block" |
| MemBlocks.MergeIntoPrev | src/cpu/cpu_recomp_core.cpp:74-83 | merging into a free predecessor grows it by the block's size plus one header and drops the block |
| MemBlocks.MergeAfter | src/cpu/cpu_recomp_core.cpp:85-93 | absorbing a free successor grows the block by the successor's size plus one header |
| MemBlocks.ReleaseShape | src/cpu/cpu_recomp_core.cpp:72-93 | release replaces the block and its free neighbours by one free block spanning all of them |
| MemBlocks.ReleaseExtent | src/cpu/cpu_recomp_core.cpp:72-93 | release keeps the extent of the list |
| MemBlocks.ReleaseUsed | src/cpu/cpu_recomp_core.cpp:72-93 | release removes exactly the released payload from the set in use |
| MemBlocks.ReleaseKeepsInvariants | src/cpu/cpu_recomp_core.cpp:72-93 | release keeps "no two adjacent free blocks" and "magic on every used block" |
| MemBlocks.FreeErrors | src/cpu/cpu_recomp_core.cpp:63-70 | freeing fails exactly when no header precedes the pointer, or its block is free, or its magic is wrong; a missing header is InvalidPointer |
| MemBlocks.LocateUsed | src/cpu/cpu_recomp_core.cpp:63 | every payload in use is found, and its block is used |
| MemBlocks.FreeUsed | src/cpu/cpu_recomp_core.cpp:61-94 | freeing a payload in use succeeds, keeps the extent, and removes exactly that payload from the set in use |
| MemBlocks.FreeReleases | src/cpu/cpu_recomp_core.cpp:61-94 | freeing the payload of a used block is the release of that block |
| MemBlocks.AllocThenFree | src/cpu/cpu_recomp_core.cpp:27-94 | freeing the pointer an allocation returned succeeds and restores the set of payloads in use |
| MemBlocks.AsWrittenHeaderMissed | src/cpu/cpu_recomp_core.cpp:37-63 | with the pointer arithmetic as written and a 32-byte header, FreeBlock looks 992 bytes past the header AllocBlock wrote, and a split remainder lands beyond its block |
| MemBlocks.AsWrittenTakeLeaks | src/cpu/cpu_recomp_core.cpp:49-50 | taking a 100-byte block whole for 90 bytes as written loses 10 bytes from the tiling; the corrected take keeps them |
| Recompiler.InitialInv | src/cpu/cpu_recomp_core.cpp:96-123 | the constructed state satisfies the invariant: one free block spans the region, nothing is cached, cur_size is 25 |
| Recompiler.EmitInv | src/cpu/cpu_recomp_core.cpp:718-807 | EmitInstruction fails exactly on unsupported words, keeps the invariant, and returns true exactly when the word is not a control transfer |
| Recompiler.FreeKeepsInvariants | src/cpu/cpu_recomp_core.cpp:61-94 | a successful free keeps "no two adjacent free blocks" and "magic on every used block" |
| Recompiler.EvictUnfold | src/cpu/cpu_recomp_core.cpp:695-716 | below 32 entries nothing changes; at 32 or more, the least used entry's allocation is freed (which succeeds) and the entry is erased |
| Recompiler.EvictList | src/cpu/cpu_recomp_core.cpp:712 | freeing a payload in use keeps the list well formed and drops exactly that payload |
| Recompiler.EvictCache | src/cpu/cpu_recomp_core.cpp:712-714 | after freeing an entry's allocation and erasing the entry, the cache still owns exactly the payloads in use |
| Recompiler.EvictSucceeds | src/cpu/cpu_recomp_core.cpp:695-716 | eviction from a valid state never fails, leaves fewer than 32 entries, and leaves the pending words alone |
| Recompiler.HitCacheOk | src/cpu/cpu_recomp_core.cpp:538 | counting a hit keeps the cache consistent with the allocator |
| Recompiler.MissSettled | src/cpu/cpu_recomp_core.cpp:543-664 | on a miss, allocating cur_size bytes and appending the new block keeps the invariant, with the pending words reset |
| Recompiler.CompileInv | src/cpu/cpu_recomp_core.cpp:528-667 | a successful CompileBlock keeps the invariant |
| Recompiler.CompileAfterEvict | src/cpu/cpu_recomp_core.cpp:532-551 | CompileBlock is eviction, which always succeeds here, followed by the lookup and install |
| Recompiler.InstallCaches | src/cpu/cpu_recomp_core.cpp:534-551 | the block returned is keyed by pc and is what a lookup then finds; the only failure is OutOfMemory(cur_size) |
| Recompiler.InstallMiss | src/cpu/cpu_recomp_core.cpp:543-664 | a miss appends a block with one hit compiled from the pending words, and resets cur_size to 25 and the pending words to none |
| Recompiler.InstallHit | src/cpu/cpu_recomp_core.cpp:534-541 | a hit never fails, counts one hit, and keeps the allocator, cur_size and the pending words unchanged |
| Recompiler.EvictionBeforeLookup | src/cpu/cpu_recomp_core.cpp:532-541 | when the least used entry is the pc's own block, it is evicted and then recompiled from the pending words with one hit |
| Recompiler.CompileHit | src/cpu/cpu_recomp_core.cpp:534-540 | after eviction, a hit returns the cached block with its count raised and keeps the invariant |
| Recompiler.CompileMiss | src/cpu/cpu_recomp_core.cpp:543-666 | after eviction, a miss fails with the allocator's error or installs the new block, keeping the invariant |
| Recompiler.CPURecompiler.constructor | src/cpu/cpu_recomp_core.cpp:96-123 | the new object is in the initial state and valid |
| Recompiler.CPURecompiler.AllocBlock | src/cpu/cpu_recomp_core.cpp:27-59 | the first-fit walk over the block list returns what AllocSpec returns and installs its list; the cache and pending words are untouched |
| Recompiler.CPURecompiler.FreeBlock | src/cpu/cpu_recomp_core.cpp:61-94 | the header lookup, the checks, marking the block free and the two merges give FreeSpec's list or its error |
| Recompiler.CPURecompiler.LeastUsedIndex | src/cpu/cpu_recomp_core.cpp:700-710 | the scan returns LeastUsed of the cache |
| Recompiler.CPURecompiler.CheckCacheFull | src/cpu/cpu_recomp_core.cpp:695-716 | on a valid object it never fails and leaves the state Evict computes |
| Recompiler.CPURecompiler.EmitInstruction | src/cpu/cpu_recomp_core.cpp:718-807 | the result and the new state are EmitSpec's; the object stays valid |
| Recompiler.CPURecompiler.FindBlock | src/cpu/cpu_recomp_core.cpp:534-541 | the scan returns Lookup of the cache |
| Recompiler.CPURecompiler.CompileBlock | src/cpu/cpu_recomp_core.cpp:528-667 | the block returned and the new state are CompileSpec's; the object stays valid |
| CpuDriver.Gather | src/cpu/cpu_core.cpp:31-48 | every word read is supported, and at most one word more than the cycle budget is read |
| CpuDriver.GatherFetches | src/cpu/cpu_core.cpp:31-47 | the k-th word is read from pc, then next_pc, then four bytes further each time |
| CpuDriver.GatherEnds | src/cpu/cpu_core.cpp:31-48 | no word before the last two is a control transfer; the block either uses up the budget or ends with a control transfer and its delay slot |
| CpuDriver.EmitAllPending | src/cpu/cpu_core.cpp:37-45 | emitting words appends exactly them to the pending words and leaves the allocator and the cache alone |
| CpuDriver.EmitAllKeepsInv | src/cpu/cpu_core.cpp:37-45 | emitting supported words keeps the invariant |
| CpuDriver.FetchedIsGather | src/cpu/cpu_core.cpp:31-48 | the loop's step-by-step effect is emitting exactly the words Gather reads, and both fail at the same first error |
| CpuDriver.ClockKeepsInv | src/cpu/cpu_core.cpp:27-52 | a successful Clock keeps the recompiler invariant |
| CpuDriver.ClockMissRunsGathered | src/cpu/cpu_core.cpp:27-52 | from a clean state with pc not cached, Clock runs exactly the words it read, and the cache then holds them under pc |
| CpuDriver.ClockHitRunsCached | src/cpu/cpu_core.cpp:27-52 | with pc cached, Clock runs the cached code, not the words it read; those words stay pending |
| CpuDriver.CPU.constructor | src/cpu/cpu_core.cpp:15-25 | registers are zero, pc is 0xBFC00000, next_pc is pc + 4, and the recompiler is fresh and in its initial state; the bus port's 32-bit store must be Bus::Write32 (kept by Valid) |
| CpuDriver.CPU.EmitFrom | src/cpu/cpu_core.cpp:33-37 | a word read from the bus goes to EmitInstruction; a failed read is returned |
| CpuDriver.CPU.FetchBlock | src/cpu/cpu_core.cpp:29-48 | the loop leaves the recompiler in the state Fetched computes, or fails with its error |
| CpuDriver.CPU.Clock | src/cpu/cpu_core.cpp:27-52 | the new guest and recompiler state are ClockSpec's, or Clock fails with its error |

## Left out

- Code generation itself is not modelled, only its effect on the guest globals. This covers the x86-64 encodings from Xbyak, `EmitPrequel`/`EmitSequel`, the register usage of the emitted code (including the upper bits of `rax`) and the `out.bin` dump.
- `mmap`/`VirtualAlloc` are not modelled: the region is a constant size of 0xFFFFFFFF bytes, and the mapping is assumed to succeed.
- Diagnostics are not modelled: `printf`, `panic`, `Dump` and `atexit`.
- The destructor is not modelled.
- `Bus::Bus`, `Bus.cpp`, `main.cpp`, `Application`, `log.h` and the RAM array are not part of this model.
- The bodies of `Bus::Read8`, `Read32`, `Write8` and `Write16` are not part of this model. The loads and stores of the emitted code go through an `Emit.Port` parameter. Its 32-bit store is tied to the modelled `Bus.Write32` by `Emit.StoresWordThroughBus`, which the CPU constructor requires and `CPU.Valid` keeps.
- Emit.ExecMemory: the byte returned by `Read8` is passed on as the callee returns it. Sign extension for `lb` is not modelled.
- The instruction fetch of `Clock` is `Bus.Read` at width 4 on the CPU's BIOS image. It is a function value of the CPU object.
- The opcode enumerators: `src/cpu/cpu_ops.h` lists only some of the enumerators that `CompileBlock` and `EmitInstruction` switch on (`jal`, `beq`, `lb` and others are missing from it). The numbers used here for those are the MIPS R3000 encoding, which the comments in `cpu_recomp_core.h` follow. The enumerator the source calls `sltiu` (0x2B under special) is modelled as the sltu it emits.
- Recompiler.CPURecompiler.AllocBlock: sizes are unbounded here. The 32-bit width of `cur_size` (`uint32_t`, src/cpu/cpu_recomp_core.h:15) and of the `b->size` sums in the two merges (src/cpu/cpu_recomp_core.cpp:77, 87) is not modelled. The pointer sums such as `size + sizeof(MemBlock) + 4` are `size_t` on a 64-bit host and cannot wrap.
- MemBlocks.Take: a split remainder gets magic 0. The source leaves whatever bytes were there, and nothing reads the magic of a free block.
- MemBlocks.FreeSpec: a pointer that is no payload start is reported as `InvalidPointer`. The source reads whatever bytes precede it.
- Recompiler.CPURecompiler.LeastUsedIndex: the `INT32_MAX` start value and the `size_t`/`int` comparison are not modelled. Hit counts are unbounded naturals, and an empty cache never reaches the scan.
- CodeBlock keeps one allocation field: the source's `Start` and `entry` always hold the same pointer. The code it holds is the guest words it was compiled from.
- CpuDriver.CPU.FetchBlock keeps `Clock`'s local pc and next_pc as method locals. It merges the read and the `EmitInstruction` call into `EmitFrom`. The value returned by the delay-slot `EmitInstruction` is ignored, as in the source.
- Recompiler.CPURecompiler.CompileBlock takes the guest pc as a parameter instead of reading the `g_state` global. Its lookup loop is the separate method `FindBlock`.
- Emit.StoreSuppressed is stated for the emitter (`ExecOp`). The pc advance and the handler around it are covered by the general Step lemmas.
- A cache hit returns the cached block without clearing `cur_instrs` or resetting `cur_size`. The words read for that call stay pending and go into the next compiled block. This is modelled as written and stated by `Recompiler.InstallHit` and `CpuDriver.ClockHitRunsCached`.
- A taken branch adds its offset to `pc`, and the next pc advance overwrites it, so branches have no lasting effect. This is modelled as written and stated by `Emit.BranchHasNoLastingEffect`.
- Concurrency and the host's floating point are not involved.

## Findings

| source | as written | input that shows it | evidently intended | confidence | as-written member | corrected member |
|---|---|---|---|---|---|---|
| src/cpu/cpu_recomp_core.cpp:37-63 | `b + sizeof(MemBlock)` and `b + size + sizeof(MemBlock)` on a `MemBlock*` scale by the header size, while FreeBlock subtracts bytes from a `void*` | a 32-byte header: AllocBlock hands out header + 1024, and FreeBlock looks for the header at header + 992, which the zero-filled region leaves without the magic, so the first eviction exits | payload and split remainder at byte offsets, so free finds the header alloc wrote | high (not executed) | MemBlocks.AsWrittenHeaderMissed | MemBlocks.AllocThenFree |
| src/cpu/cpu_recomp_core.cpp:49-50 | `b->size = size` also when the block is taken whole without a split | a free 100-byte block taken for 90 bytes with a 32-byte header shrinks to 90, and the 10 bytes never return | keep the block's size when it is not split | high (not executed) | MemBlocks.AsWrittenTakeLeaks | MemBlocks.AllocUsed |
| src/memory/Bus.h:31-32 | the guard checks only the start address, whatever `sizeof(T)` is | `read<uint32_t>(0xBFC7FFFD)` passes the guard: its offset is 0x7FFFD, so it reads bios[0x7FFFD..0x80000] and its last byte lies one past the 0x80000-byte array | require all `sizeof(T)` bytes to lie in the image | high (not executed) | Bus.ReadGuardAdmitsOverrun | Bus.Read |
