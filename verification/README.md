# mlogv32 in Dafny

mlogv32 is a RISC-V RV32IMA processor with M, S and U modes and Sv32, written as a
Mindustry-logic program with a Python toolchain and a Kotlin and a Rust side.
This project models its hard parts and proves what they promise.

- `Computer`, `Worker`, `Handlers`, `Isa`: the whole machine. `Isa` is the instruction
  set; `Worker` is the mlog program that fetches, dispatches and executes. The main
  result is `Computer.RunProgram`: whatever image is flashed, a run from reset is a run
  of the instruction set, and the RAM dump is RAM at its end. `Worker.Hart.Run` is the
  run itself, and `Isa.FencedRunIsStrict` says when stale translations cannot be seen.
- `Instructions`, `Arithmetic`, `Bits`, `PageTables`, `PrivilegedBits`, `Assembler`,
  `Immediates`: what the reference itself means, in the manual's terms: registers, bits
  and bytes, CSR addresses, entry words, and an assembler that decoding undoes.
- `Numbers`, `MulDiv`, `Alu`: multiplication by halves and division through rounded
  doubles, shifts and sign extension on doubles.
- `Decoder`, `Bytes`, `Atomics`: the instruction decoder, the cached form of an
  instruction, byte order and partial accesses, the AMO jump table.
- `AddressMap`, `LookupTables`, `Memory`, `LoadStore`: where a word lives, and the
  load, store, atomic and cache-filling paths. The main result is
  `LoadStore.MemoryUnit.ExecuteAll`: whole runs refine a flat byte array and keep the
  decoded-instruction cache coherent.
- `PageWalk`, `Translation`, `Fetch`: the Sv32 walk over that memory, and instruction
  fetch through cached names.
- `Privilege`, `Csr`, `Traps`: traps, returns, mstatus and CSR instructions, as the
  architecture has them, and the worker's code for them.
- `Mlog`, `LabelText`, `SavedVariables`, `Handoff`: labels, the saved-variable check,
  and the handoff of one hart between many workers. The main result is
  `Handoff.TransparentIffClean`.
- `LocalVariables`, `Dispatch`, `Labels`: the allocator of template locals, the layout of
  the label table, and the table that the configured instruction list gives.
- `Rings`, `Uart`, `UartProgress`, `UartPorts`: the UART rings, all their users and every
  interleaving: nothing is lost, and what can be moved is moved.
- `HostAccess`: flashing ROM and dumping RAM.

Conventions. Mlog numbers are integers where the code keeps them below 2^53, bit
vectors where it works on bits (a cached instruction is a 54-bit two's complement
number: significand and sign of a double), and reals where rounding is the point. A
rounded quotient is any double nearest to the exact one. Interrupts, the answers of
devices, counters, the meaning of statements and schedules are parameters; clocks,
sockets and the game engine do not appear. Code that changes variables step by step is
imperative here; protocols between processors are state machines over their steps.
Invariants that are long are kept folded under a key (`Options.Unfold` and its like)
and opened where a proof needs them.

Facts about the code that shape the statements:

- The worker keeps using a name until it crosses a page, jumps away, traps, returns,
  fences or writes satp, so after a store to a page table it may fetch through the old
  frame. The architecture allows that until the next fence, and so does `Isa.IsRun`;
  `Isa.FencedRunIsStrict` takes as its hypothesis that no store between two fences
  changes the frame of a page.
- The walk accepts pointers with the reserved bits D, A or U set, against step 3 of
  section 4.3.2. `PageWalk.ReservedAccepted` is such a table, and `PageWalk.StrictIff`
  says on which tables the two agree.
- The word store skips the RAM range check. `LoadStore.MemoryUnit.StoreWord` says where
  such a store goes and exactly when it does harm, `HarmfulStore` is one that does; runs
  are followed up to it.
- `pc + 4` is not truncated, so runs are followed up to an instruction at the last word
  of the address space.
- The fetch translates with the effective mode; `Privilege.ReachableInvariant` is why
  that is the mode itself below M-mode.
- Register-format and illegal decodes leave a stale immediate; `Handlers.EssenceSame`
  says that no handler reads it.
- JALR does not check funct3, and neither does the encoding table.
- The documented rule that saved variables make workers interchangeable is checked
  for writes only. `Handoff.PassingIsNotEnough` gives a passing program that leaks a
  worker's own variable, for every passing program; `Handoff.TransparentIffClean`
  gives the exact condition.
- A store to the transmit register is not checked for overrun. `Rings.AdvanceWrite`
  shows that it loses the whole ring exactly when the ring is full; the driver checks
  first.
- `local_variable` takes a slot before it rejects an undeclared name, and `free_locals`
  sorts only at its end. `LocalVariables.StepConserves` says exactly which operation
  loses a slot, `LocalVariables.UnsortedAfterFailure` is a failed `free_locals` that
  leaves the order broken, and `LocalVariables.FailedFreeSortedIff` says which ones do.

## Model

| member | source | states |
|---|---|---|
| Computer.RunProgram | src/cpu/worker.mlog.jinja:237-364 | flash an image, run from reset with any interrupts, device answers and counter values, dump RAM: the run is a run of the instruction set on the flashed image (instructions come from the fetched words, registers and memory), up to the first instruction at the last word of the address space or the first word store that misses RAM and the devices; the dump is RAM at its end |
| Computer.ImageRest | mod/src/main/kotlin/gay/object/mlogv32/ProcessorAccess.kt:56-80 | behind the image ROM is zero |
| Worker.Hart.Run | src/cpu/worker.mlog.jinja:237-364 | whole runs of fetch, dispatch and handlers are runs of Isa.Step, each fetch going through a frame that the page had since the last fence, satp write, trap or return; a power-off or reset store ends the program |
| Isa.FencedRunIsStrict | src/cpu/worker.mlog.jinja:2245-2256 | if no store between two fences changes the frame of a page, every step of such a run translates the pc by PageWalk.Sv32 in the memory of that moment, loads the word and executes it; that walk is section 4.3.2 except that it accepts reserved bits of pointers (see PageWalk.StrictIff) |
| Isa.StepSound | src/cpu/worker.mlog.jinja:324-364 | every step keeps registers 32-bit words with x0 = 0 and the hart's invariant |
| Isa.StepEpoch | src/cpu/worker.mlog.jinja:466-475 | a step that is no fence, satp write, trap or return keeps the mode and satp, so the frames of an epoch differ only by stores |
| Worker.Hart.Perform | src/cpu/worker.mlog.jinja:237-364 | one step: an interrupt, or fetch and execution; the frame it used is current or was found in this epoch |
| Worker.Hart.FetchInstruction | src/cpu/worker.mlog.jinja:237-300 | a fetch through the kept name, or through translation and the cache or the decoder, gives a correct decoding of the word in the pc's frame, and the name moves on or becomes null |
| Worker.Hart.TranslateFetch | src/cpu/worker.mlog.jinja:242-250 | the pc is translated with the mode although the walk reads the effective mode: below M-mode they agree |
| Worker.Hart.Dispatch | src/cpu/worker.mlog.jinja:313-321 | each handler does to registers, hart and memory what Isa.Execute does, for every instruction |
| Worker.Hart.ExecuteMemory | src/cpu/worker.mlog.jinja:1543-1879 | loads, stores and atomics: alignment before translation in the effective mode, then the physical access; causes and mtval as the instruction set has them; false exactly for a word store that misses RAM and the devices |
| Worker.Hart.ExecuteJump | src/cpu/worker.mlog.jinja:1405-1507 | branches and jumps take the architecture's target, write the link only if it is aligned, and leave the name of the target's slot or none |
| Worker.Hart.ExecutePlain | src/cpu/worker.mlog.jinja:1395-1403 | LUI, AUIPC and the arithmetic instructions write Isa.ResultOf |
| Worker.Hart.ExecuteCsr | src/cpu/worker.mlog.jinja:2263-2376 | rd gets the old value, the register the modified one; a refusal traps; a satp write drops the name |
| Worker.Hart.ExecutePriv | src/cpu/worker.mlog.jinja:2138-2256 | PRIV as in Privilege.Priv; everything but WFI drops the name |
| Worker.Hart.TakeTrap | src/cpu/worker.mlog.jinja:384-475 | a trap enters the handler and drops the name |
| Instructions.JalrJumps | src/cpu/worker.mlog.jinja:1405-1409 | JALR goes to the sum of rs1 and the offset modulo 2^32, or to the number one below it if that sum is odd; an aligned target is reached with the next address in rd, any other raises exception 0 and writes no register |
| Instructions.EvenBits | src/cpu/worker.mlog.jinja:1405-1409 | in bits: all those of the sum but the lowest |
| Instructions.JalJumps | src/cpu/worker.mlog.jinja:1461-1476 | JAL goes to pc plus offset modulo 2^32, and writes the next address |
| Instructions.BranchJumps | src/cpu/worker.mlog.jinja:1411-1455 | branches compare the words or the signed numbers they stand for, and go to pc plus offset or on; they write no register |
| Instructions.UpperGives | src/cpu/worker.mlog.jinja:1395-1403 | LUI gives its immediate, AUIPC adds it to the pc modulo 2^32 |
| Instructions.ArithmeticGives | src/cpu/worker.mlog.jinja:1884-2124 | the other instructions give Alu.Compute of rs1 and rs2 or the immediate, and change nothing else |
| Instructions.RamLoadGives | src/cpu/worker.mlog.jinja:1543-1579 | a load from RAM gives the addressed bytes, the first one lowest, with zeros or copies of the sign above |
| Instructions.RomLoadGives | src/cpu/worker.mlog.jinja:1543-1579 | the same from ROM |
| Instructions.DeviceLoadGives | src/cpu/worker.mlog.jinja:1543-1579 | the same from the answer of a device, or exception 5 |
| Instructions.StoreWrites | src/cpu/worker.mlog.jinja:1600-1661 | a store to RAM writes the low bytes of rs2 there, and changes no other byte, register or reservation |
| Instructions.PowerSwitched | src/cpu/worker.mlog.jinja:1600-1661 | a word store to syscon restarts the machine for 1, switches it off for 0 and 2, and does nothing for larger numbers |
| Instructions.LoadReservedGives | src/cpu/worker.mlog.jinja:1741-1776 | LR.W gives the word and reserves its address |
| Instructions.StoreConditionalDoes | src/cpu/worker.mlog.jinja:1778-1802 | SC.W stores and gives 0 exactly if its address is reserved, gives 1 otherwise, and clears the reservation |
| Instructions.AmoDoes | src/cpu/worker.mlog.jinja:1804-1879 | an AMO gives the old word and stores Atomics.Combine of it and rs2 |
| Instructions.MisalignedTraps | src/cpu/worker.mlog.jinja:1543-1879 | a misaligned address raises exception 4 for loads and LR, 6 for all others, with the address |
| Instructions.OutsideTraps | src/cpu/worker.mlog.jinja:1543-1879 | outside memory and devices loads and LR raise exception 5, short stores, SC and AMOs 7; atomics also in ROM and devices |
| Instructions.DataFaultTraps | src/cpu/worker.mlog.jinja:498-756 | what the translation refuses raises its cause with the virtual address |
| Instructions.CsrGives | src/cpu/worker.mlog.jinja:2263-2376 | a CSR instruction gives what a read of the address returns, with rs1 or the number in its field as operand; an illegal one changes no register |
| Instructions.SystemDoes | src/cpu/worker.mlog.jinja:2126-2256 | PRIV, FENCE, the cache instruction and illegal words change nothing but the privileged state |
| Instructions.FetchedExecutes | src/cpu/worker.mlog.jinja:242-321 | a step executes the instruction whose four bytes are at the pc's physical address, in RAM or ROM |
| Instructions.FetchTraps | src/cpu/worker.mlog.jinja:242-280 | a fetch that is refused raises its cause, and one outside ROM and RAM cause 1, with the pc |
| Instructions.InterruptTaken | src/cpu/worker.mlog.jinja:384-471 | an interrupt is taken before the instruction |
| Handlers.FieldsMean | src/cpu/worker.mlog.jinja:282-321 | any correct decoding of a word, stale immediate or not, starts the handler of the instruction that the word is, with its operands |
| Handlers.HandlerMeans | src/cpu/cpu.yaml:107-175 | the handler of a word's op_id is the operation that opcode, funct3 and funct7 name; op_id 0 exactly for illegal words |
| Labels.BuildLabels | src/cpu/cpu.yaml:48-175 | the configured list is accepted, and in the table that the controller fills from it the routine at every opcode finds the op_id of the opcode, and the label at every op_id is the one of Handlers.HandlerOf |
| Labels.HandlerFound | src/cpu/worker.mlog.jinja:313-321 | op_id + 192 is a slot of its handler, whatever layout the resolver may give the list |
| Handlers.EssenceSame | src/cpu/worker.mlog.jinja:1880-1990 | handlers do not depend on the immediate where the format has none |
| Assembler.RoundTrip | src/cpu/cpu.yaml:107-175 | for every operation, registers and immediate that fits: the word assembled from the fields, as the manual places them, decodes to the operation and these fields |
| Immediates.GathersI | src/cpu/worker.mlog.jinja:1258-1272 | the I immediate is collected from where it was scattered, for every sign-extended value |
| Immediates.GathersS | src/cpu/worker.mlog.jinja:1185-1202 | the same for S |
| Immediates.GathersB | src/cpu/worker.mlog.jinja:1135-1169 | the same for B |
| Immediates.GathersU | src/cpu/worker.mlog.jinja:1093-1103 | the same for U |
| Immediates.GathersJ | src/cpu/worker.mlog.jinja:1105-1128 | the same for J |
| Alu.Execute | src/cpu/worker.mlog.jinja:1884-2124 | every register instruction computes its integer specification |
| Alu.ShiftLeft | src/cpu/worker.mlog.jinja:1957-1967 | truncating before the shift gives the low word of the product with the power of two |
| Alu.ShiftRightSigned | src/cpu/worker.mlog.jinja:1984-2007 | shift, exclusive or, subtraction and mask divide the signed number, rounding down |
| Alu.ExtendSign | src/cpu/worker.mlog.jinja:1995-2007 | the variable-length sign extension |
| Alu.XorTop | src/cpu/worker.mlog.jinja:2001-2002 | flipping the top bit of a number by exclusive or |
| Alu.Test | src/cpu/worker.mlog.jinja:1411-1455 | the six branch conditions, signed ones through the shared conversion |
| Arithmetic.Sums | src/cpu/worker.mlog.jinja:1884-1899 | ADD and SUB are right modulo 2^32 |
| Arithmetic.Comparisons | src/cpu/worker.mlog.jinja:1901-1920 | SLT compares the signed numbers that the words stand for, SLTU the words |
| Arithmetic.LogicBits | src/cpu/worker.mlog.jinja:1922-1950 | bit k of AND, OR and XOR, for every k, by bit k of the operands |
| Arithmetic.ShiftBits | src/cpu/worker.mlog.jinja:1952-2007 | SLL and SRL move every bit by the low five bits of the amount and bring in zeros, SRA copies of the sign |
| Arithmetic.Products | src/cpu/worker.mlog.jinja:2009-2086 | MULH, MULHSU and MULHU with MUL behind them are the products of the numbers |
| Arithmetic.UnsignedQuotients | src/cpu/worker.mlog.jinja:2094-2124 | DIVU and REMU: dividend = quotient * divisor + remainder, smaller than the divisor; all ones and the dividend for a zero divisor |
| Arithmetic.SignedQuotients | src/cpu/worker.mlog.jinja:2088-2124 | the same for DIV and REM on signed numbers, the remainder with the dividend's sign; the overflow gives the dividend and 0 |
| Bits.SameWord | src/cpu/worker.mlog.jinja:1922-2007 | a word is determined by its bits |
| Computer.RunFromReset | src/cpu/worker.mlog.jinja:237-364 | the run alone, from any valid memory and any sound hart |
| Computer.Assemble | src/cpu/controller.mlog.jinja:60-138 | tables, INCR, layout and ROM together make a valid, coherent memory unit |
| LoadStore.MemoryUnit.ExecuteAll | src/cpu/worker.mlog.jinja:1543-1879 | any run of loads, stores, LR, SC, AMO and MLOGSYS, up to the first stray word store, gives the outcomes (values, mcause, syscon) and the memory that a flat little-endian byte array would, and leaves the unit valid; validity includes coherence of every cache slot in use |
| LoadStore.MemoryUnit.constructor | src/cpu/controller.mlog.jinja:60-100 | a machine whose memory processors were never written is valid: null words and null slots agree |
| LoadStore.MemoryUnit.Execute | src/cpu/worker.mlog.jinja:1543-1879 | one access acts as on the flat byte array and keeps coherence; a stray word store is reported as done, changes no word, and keeps coherence exactly if it is harmless |
| LoadStore.MemoryUnit.LoadValue | src/cpu/worker.mlog.jinja:1543-1579 | load_value against LoadSpec: bytes joined little-endian and extended, misalignment before access fault, ROM and RAM bounds |
| LoadStore.MemoryUnit.StoreValue | src/cpu/worker.mlog.jinja:1600-1661 | store_value against StoreSpec: exactly the addressed bytes change; misaligned, faulting, syscon and device cases change nothing; a stray word store is reported as done |
| LoadStore.MemoryUnit.StoreWord | src/cpu/worker.mlog.jinja:1613-1661 | the unchecked word store: above RAM the word lands in a ROM or RAM cache slot, below RAM its decoding replaces a slot; harmless exactly if no slot in use is hit or the slot's word is the same instruction (below) or illegal (above) |
| LoadStore.MemoryUnit.HarmfulStore | src/cpu/worker.mlog.jinja:1613-1661 | with one processor each of ROM and RAM and two of cache, a word store to 0x80008000 hits the slot of the NOP at the start of RAM and does harm, whatever it stores |
| LoadStore.MemoryUnit.HarmfulAbove | src/cpu/worker.mlog.jinja:1613-1661 | so does, in any configuration, a word store to the place of the slot of a legal instruction |
| LoadStore.MemoryUnit.StoreRamWord | src/cpu/worker.mlog.jinja:1649-1661 | the write of the reversed word and the decode behind it change one word and keep every cache slot coherent |
| LoadStore.MemoryUnit.LoadRamWord | src/cpu/worker.mlog.jinja:801-885 | a RAM word comes back as it was stored, through processor, variable and byte reversal |
| LoadStore.MemoryUnit.LoadRomWord | src/cpu/worker.mlog.jinja:887-930 | a ROM word is the word its characters hold, and zero past the end of the string |
| LoadStore.MemoryUnit.LoadReservedWord | src/cpu/worker.mlog.jinja:1741-1776 | LR.W returns the word and registers the reservation, or traps with 4 or 5 |
| LoadStore.MemoryUnit.StoreConditionalWord | src/cpu/worker.mlog.jinja:1778-1802 | SC.W stores and returns 0 exactly if the reservation is for this address, and always clears it |
| LoadStore.MemoryUnit.ModifyWord | src/cpu/worker.mlog.jinja:1804-1879 | an AMO returns the old word and stores the combination |
| LoadStore.MemoryUnit.DecodeRom | src/cpu/worker.mlog.jinja:2573-2603 | MLOGSYS decodes every ROM word up to and including the page of rs1, or to the end of the cache, and changes no memory word; below M-mode it is illegal |
| LoadStore.MemoryUnit.DecodeUpTo | src/cpu/worker.mlog.jinja:2589-2603 | the decode loop, which follows INCR and looks a name up again after each page, fills the slot of every word below the limit |
| LoadStore.LoadMeaning | src/cpu/worker.mlog.jinja:1543-1579 | extracting from the word that contains an address is loading from the flat memory |
| LoadStore.StoreMeaning | src/cpu/worker.mlog.jinja:1611-1646 | inserting into that word is patching the flat memory |
| LoadStore.StoreCoherent | src/cpu/worker.mlog.jinja:1649-1661 | storing a word together with its decoding keeps all slots coherent |
| Memory.NullCoherent | src/cpu/worker.mlog.jinja:1355-1365 | a null slot is a correct decoding of a null word |
| Memory.WriteRamWord | src/cpu/worker.mlog.jinja:801-857 | writing a RAM word's cell changes that word and no other word or slot |
| Memory.WriteRamCache | src/cpu/worker.mlog.jinja:1361-1391 | the same for a RAM word's cache slot |
| Memory.WriteRomCache | src/cpu/worker.mlog.jinja:1361-1391 | the same for a ROM word's cache slot |
| Memory.PatchWord | src/cpu/worker.mlog.jinja:1611-1646 | replacing bytes of one word is patching the byte array at that address |
| Memory.JoinWord | src/cpu/worker.mlog.jinja:1565-1579 | reading bytes of one word is reading the byte array at that address |
| Memory.OverwriteCoherent | src/cpu/worker.mlog.jinja:1613-1661 | a write above RAM keeps coherence exactly if it is a decoding of the word whose slot it hits |
| Memory.SharedPayload | src/cpu/worker.mlog.jinja:1651-1661 | a decoding of one word is one of another exactly if both are the same instruction |
| Memory.OverwriteRepresents | src/cpu/worker.mlog.jinja:809-857 | a write above RAM changes one ROM or RAM cache slot, or none |
| Bytes.SwapEndianness | src/cpu/worker.mlog.jinja:862-883 | the shifts and masks reverse the four bytes |
| Bytes.ExtractValue | src/cpu/worker.mlog.jinja:1565-1579 | shift, truncation and sign extension give the addressed bytes, extended |
| Bytes.InsertValue | src/cpu/worker.mlog.jinja:1618-1641 | clearing with the mask and adding the shifted value replaces exactly the addressed bytes |
| Bytes.BytesHold | src/cpu/worker.mlog.jinja:905-930 | the offset characters of four bytes sum to their little-endian word |
| Atomics.AmoOffset | src/cpu/worker.mlog.jinja:1816-1831 | the character table sends each op_id to the jump-table place of its operation |
| Atomics.AmoModify | src/cpu/worker.mlog.jinja:1844-1879 | sums without truncation, the conversion that signed minimum and maximum share with the unsigned ones they fall into, and the final mask give the instruction's combination of words |
| Arithmetic.AmoNumbers | src/cpu/worker.mlog.jinja:1844-1879 | AMOADD is the sum modulo 2^32, AMOSWAP the operand, the minima and maxima those of the words or the signed numbers |
| Arithmetic.AmoBits | src/cpu/worker.mlog.jinja:1844-1879 | bit k of AMOAND, AMOOR and AMOXOR by bit k of the operands |
| Fetch.Frontend.FetchHit | src/cpu/worker.mlog.jinja:282-300 | with a name, the slot's decoding of the word in the frame, and the next name or null |
| Fetch.Frontend.FetchMiss | src/cpu/worker.mlog.jinja:252-280 | without one, the slot of the physical address, or its word decoded |
| Fetch.Frontend.Follows | src/cpu/worker.mlog.jinja:1478-1507 | after a jump the name is that of the target's slot, found by the page character on the same page and dropped on another page |
| Fetch.Frontend.SamePageName | src/cpu/worker.mlog.jinja:1491-1503 | the name of another slot of the page, from the first character of a name |
| Fetch.Frontend.LocateSlot | src/cpu/worker.mlog.jinja:252-280 | a fetch uses a slot only if it is in use, and then the slot of that address |
| Fetch.SlotOfFrame | src/cpu/worker.mlog.jinja:252-285 | every slot of a covered frame holds a decoding of the word at that address |
| Fetch.DecodeSlow | src/cpu/worker.mlog.jinja:259-268 | the fields of a slow fetch are a correct decoding, although op_id and imm are not packed |
| Fetch.UnpackedFits | src/cpu/worker.mlog.jinja:282-300 | unpacking a cached instruction gives a correct decoding |
| Decoder.Decode | src/cpu/worker.mlog.jinja:1051-1391 | the payload's op_id, registers and immediate are those of the word; stale imm only where the format has none |
| Decoder.DecodeFields | src/cpu/worker.mlog.jinja:1051-1365 | op_id and immediate by format, illegal words give op_id 0 |
| Decoder.DecodedIffMatches | src/cpu/cpu.yaml:107-175 | a word has an op_id exactly if it matches that entry of the mask-and-match table |
| Decoder.IllegalIffNoMatch | src/cpu/worker.mlog.jinja:1355-1358 | illegal words are exactly those that match no entry |
| Decoder.JalImmediate | src/cpu/worker.mlog.jinja:1105-1128 | the J immediate, sign-extended |
| Decoder.BranchImmediate | src/cpu/worker.mlog.jinja:1135-1169 | the B immediate, sign-extended |
| Decoder.StoreImmediate | src/cpu/worker.mlog.jinja:1185-1202 | the S immediate, sign-extended |
| Decoder.DecodeAmo | src/cpu/worker.mlog.jinja:1204-1237 | funct5 to op_id without gaps or collisions |
| Decoder.Pack | src/cpu/worker.mlog.jinja:1380-1388 | packing loses no field |
| Decoder.LongNumber | src/cpu/worker.mlog.jinja:1380-1388 | the 64-bit shl and or on a negative op_id give op_id * 2^47 + rs2 * 2^42 + rs1 * 2^37 + rd * 2^32 + imm, as a signed number |
| Decoder.PayloadMagnitude | src/cpu/worker.mlog.jinja:1380-1388 | which lies in [-2^53, 2^53), so a double holds it |
| Decoder.PayloadFields | src/cpu/worker.mlog.jinja:285-300 | and whose arithmetic shifts and masks give every field back, op_id with its sign |
| Translation.Translate | src/cpu/worker.mlog.jinja:498-756 | the routine, reading its tables with load_word from the memory unit, returns the physical address, or the cause, of section 4.3.2 of the RISC-V Privileged Architecture (20211203) with Svade and a 32-bit physical limit, for every satp, table, access, mode, SUM and MXR, but for reserved bits of pointers |
| PageTables.WalkMeans | src/cpu/worker.mlog.jinja:498-756 | on the bits of the entries: an access returns the address in a leaf with V, A, no W without R, X for a fetch, R (or, with MXR, X) for a load, W and D for a store, U in U-mode, and U clear or SUM and no fetch in S-mode; superpages aligned, 32-bit addresses; everything else is the page fault, or the access fault for a missing table or a higher address |
| PageTables.LocateMeans | src/cpu/worker.mlog.jinja:498-756 | translation in a state of the machine ends so, with its satp, mstatus word and mode; addresses are physical in M-mode and while satp.MODE is 0 |
| PageTables.OffsetKept | src/cpu/worker.mlog.jinja:711-742 | it keeps the offset in the page, and so the alignment |
| PageWalk.StrictIff | src/cpu/worker.mlog.jinja:560-598 | it is that section to the letter exactly if the root entry is no pointer with D, A or U set, or the last-level entry refuses the access: not valid, W without R, a pointer, not permitted, A clear, or D clear for a store |
| PageTables.StrictMeans | src/cpu/worker.mlog.jinja:560-598 | on the bits of the entries: the section is the same walk, except that a root entry that is a pointer with 0xd0 set is a page fault |
| PageWalk.ReservedAccepted | src/cpu/worker.mlog.jinja:560-598 | two tables where it returns an address and the section asks for a page fault |
| Translation.WalkLevel | src/cpu/worker.mlog.jinja:520-756 | one level of that walk |
| PageWalk.WalkEntry | src/cpu/worker.mlog.jinja:535-756 | the tests on one entry |
| PageWalk.CheckLeaf | src/cpu/worker.mlog.jinja:600-709 | the bit tests are the permission, superpage and D-bit checks |
| PageWalk.LeafAddress | src/cpu/worker.mlog.jinja:711-742 | the physical address of a page or superpage, or an access fault above 32 bits |
| PageWalk.Classify | src/cpu/worker.mlog.jinja:535-598 | the pattern string tests V, the reserved encodings and the early A bit |
| PageWalk.SamePageTranslation | src/cpu/worker.mlog.jinja:498-756 | with satp and tables fixed, a page has one frame or one fault |
| Translation.PageHasFrame | src/cpu/worker.mlog.jinja:498-756 | with memory, satp and mode fixed, fetch translation maps every page to exactly one frame or one fault |
| Translation.FetchIgnoresStatus | src/cpu/worker.mlog.jinja:610-640 | SUM, MXR and the rest of mstatus do not change it, so an mstatus write may keep the name |
| Translation.WalkedByPage | src/cpu/worker.mlog.jinja:498-756 | the same for the walk alone |
| Privilege.ReachableInvariant | src/cpu/worker.mlog.jinja:372-486 | in every state reachable from reset: MPRV is clear below M-mode, the effective mode is MPRV ? MPP : mode, pc and the trap CSRs are 4-aligned (mode and MPP are never 2, by type) |
| Traps.TrapUnit.ExecuteAll | src/cpu/worker.mlog.jinja:372-486 | the bit-level code follows the record-level architecture over any run, and mstatus stays inside its writable fields |
| Traps.TrapUnit.TakeTrap | src/cpu/worker.mlog.jinja:384-471 | trap entry with delegation, on the real mstatus word |
| Traps.TrapUnit.ReturnFromMachine | src/cpu/worker.mlog.jinja:2210-2243 | MRET |
| Traps.TrapUnit.ReturnFromSupervisor | src/cpu/worker.mlog.jinja:2190-2208 | SRET |
| Traps.TrapUnit.ExecutePriv | src/cpu/worker.mlog.jinja:2152-2256 | ECALL, EBREAK, xRET, WFI and SFENCE.VMA with TSR, TVM and mode checks |
| Traps.TrapUnit.ModifyCsr | src/cpu/worker.mlog.jinja:2293-2376 | from the 12-bit address, rs1 and the operation: privilege by csr[9:8], descriptor by the packed number, read handler with TVM and counter-enable tests, set and clear on 64-bit numbers, static mask, write handler; the result is Privilege.CsrAccess, and rd the old value |
| PrivilegedBits.WordWritten | src/cpu/worker.mlog.jinja:2300-2376 | after a CSR instruction that writes a word, a read of its address gives the new value (xepc and xtvec without the two lowest bits), and a read of every other address what it gave before |
| PrivilegedBits.TrapReads | src/cpu/worker.mlog.jinja:384-471 | after a trap the handler reads the cause, the value and the old pc at 0x342, 0x343 and 0x341 in M-mode, at 0x142, 0x143 and 0x141 in S-mode |
| PrivilegedBits.TrapKeepsWords | src/cpu/worker.mlog.jinja:384-471 | and at every other word address what was there before |
| PrivilegedBits.TrapVector | src/cpu/worker.mlog.jinja:429-471 | the handler starts at what was read at 0x305 or 0x105; the reset value stops the machine |
| PrivilegedBits.TrapStatus | src/cpu/worker.mlog.jinja:429-451 | by the bits of mstatus: xPIE gets xIE, xIE is cleared, xPP gets the mode, and no other bit changes |
| PrivilegedBits.MretStatus | src/cpu/worker.mlog.jinja:2210-2243 | MRET undoes that, clears MPRV on the way out of M-mode, and goes to the mode in MPP and the pc in mepc |
| PrivilegedBits.SretStatus | src/cpu/worker.mlog.jinja:2190-2208 | SRET likewise, with SPP and sepc |
| PrivilegedBits.StatusWritten | src/cpu/worker.mlog.jinja:2378-2414 | a write of mstatus takes over its writable bits; the reserved mode reads as U |
| PrivilegedBits.SstatusRead | src/cpu/worker.mlog.jinja:2378-2414 | sstatus is mstatus under a mask |
| PrivilegedBits.SstatusWritten | src/cpu/worker.mlog.jinja:2378-2414 | a write of sstatus changes these bits of mstatus and no others |
| PrivilegedBits.DelegationWritten | src/cpu/worker.mlog.jinja:2300-2376 | medeleg and mideleg keep the bits of the causes that can be delegated |
| PrivilegedBits.DelegationBit | src/cpu/worker.mlog.jinja:429-451 | a trap goes to S-mode exactly if it comes from below M-mode and the bit of its cause is set |
| PrivilegedBits.EffectiveByBits | src/cpu/worker.mlog.jinja:480-486 | loads and stores use the mode in MPP while MPRV is set |
| PrivilegedBits.PrivByMode | src/cpu/worker.mlog.jinja:2138-2256 | ECALL raises 8, 9 or 11 by mode, EBREAK 3 with the pc; MRET, SRET and SFENCE.VMA where mode, TSR and TVM allow them, else exception 2 |
| PrivilegedBits.ReadableByBits | src/cpu/worker.mlog.jinja:2263-2300 | a register can be read exactly if it exists, bits 9 and 8 of its address allow it to the mode, TVM does not close satp, and mcounteren and scounteren open the counter |
| PrivilegedBits.CsrIllegal | src/cpu/worker.mlog.jinja:2263-2300 | a CSR instruction is illegal exactly if the register cannot be read, or it would write an address from 0xc00 on |
| Csr.FindDescriptor | src/cpu/worker.mlog.jinja:2300-2348 | name lookup, mod and rounded idiv give the mask and both labels of the address |
| Csr.InitCsrLabels | src/cpu/controller.mlog.jinja:93-151 | the controller's table holds the packed descriptor of every address |
| Csr.DescriptorAgrees | src/cpu/cpu.yaml:177-379 | an address is readable exactly if the register exists, and writable exactly if csr[11:10] is not 3 |
| Privilege.JumpBySignedOffset | src/cpu/worker.mlog.jinja:1461-1476 | adding the unsigned immediate and truncating is the jump by the signed offset, wrapping around the address space, or the misaligned-target trap |
| Privilege.StepKeepsInvariant | src/cpu/worker.mlog.jinja:372-486 | each event keeps the machine invariant |
| Privilege.ModeChanges | src/cpu/worker.mlog.jinja:389-486 | traps never lower the mode, returns never raise it, and U-mode is left only through a trap vector |
| Privilege.NestedHandlerReturns | src/cpu/worker.mlog.jinja:389-486 | a trap to M-mode, a handler with inner M-mode traps of any depth (each with its own handler, MRET and the restore of mepc and mstatus), MRET: mode, MIE and pc come back |
| Privilege.NestedHandlerKeepsFrame | src/cpu/worker.mlog.jinja:429-451 | such a handler has MPP, MPIE and mepc again at its end |
| Privilege.NestedMachineTrap | src/cpu/worker.mlog.jinja:429-451 | one inner trap with an arbitrary handler that has its frame back, MRET and the restore leave the outer frame and mstatus as they were |
| Privilege.BodyKeepsMachineFrame | src/cpu/worker.mlog.jinja:389-486 | any run without a trap to M-mode, MRET or a write that changes MPIE, MPP or mepc keeps the frame |
| Privilege.SupervisorHandlerReturns | src/cpu/worker.mlog.jinja:400-427 | a trap to S-mode, any handler run, SRET: mode, SIE and pc come back; inside may be M-mode traps and their handlers, and writes to mstatus or sstatus that leave SIE, SPIE and SPP as they are |
| Privilege.ExcursionSafe | src/cpu/worker.mlog.jinja:384-475 | inside such a handler, a trap to M-mode, an M handler with nested M traps to any depth that saves and restores mstatus and mepc, and MRET are allowed, and come back to the same mode, pc and S frame |
| Privilege.NestedHandlerSafe | src/cpu/worker.mlog.jinja:429-451 | the body of such an M handler, restores of mstatus included, never changes the S frame |
| Privilege.HandlerKeepsFrame | src/cpu/worker.mlog.jinja:389-486 | any run without a trap to S-mode, SRET or a write that changes the frame keeps SPP, SPIE, SIE, sepc, scause and stval |
| Privilege.ParseEncode | src/cpu/worker.mlog.jinja:2378-2414 | mstatus and its fields determine each other |
| Privilege.FieldsDetermineWord | src/cpu/worker.mlog.jinja:2391-2414 | mstatus holds nothing but its writable fields |
| MulDiv.Mul | src/cpu/worker.mlog.jinja:2009-2043 | MUL is the low word of the product, signed or not |
| MulDiv.Mulh | src/cpu/worker.mlog.jinja:2045-2073 | MULH is the high word of the signed product |
| MulDiv.Mulhsu | src/cpu/worker.mlog.jinja:2075-2079 | MULHSU is the high word of the mixed product |
| MulDiv.Mulhu | src/cpu/worker.mlog.jinja:2081-2086 | MULHU is the high word of the unsigned product |
| MulDiv.MulDecomp | src/cpu/worker.mlog.jinja:2017-2043 | the four half products make up the product and stay below 2^53 |
| MulDiv.WordsOfProduct | src/cpu/worker.mlog.jinja:2009-2086 | MULH's result, read as a signed word, and MUL's result put together are the signed 64-bit product |
| MulDiv.Div | src/cpu/worker.mlog.jinja:2088-2104 | DIV through any correctly rounded double quotient is exact truncating division; zero divisor gives all ones, overflow gives the dividend |
| MulDiv.Divu | src/cpu/worker.mlog.jinja:2094-2104 | DIVU likewise |
| MulDiv.Rem | src/cpu/worker.mlog.jinja:2106-2124 | REM is the remainder with the dividend's sign; zero divisor gives the dividend |
| MulDiv.Remu | src/cpu/worker.mlog.jinja:2113-2124 | REMU likewise |
| MulDiv.DivRem | src/cpu/worker.mlog.jinja:2088-2124 | dividend = quotient * divisor + remainder modulo 2^32, always |
| MulDiv.DivRemUnsigned | src/cpu/worker.mlog.jinja:2094-2124 | the same exactly, with the remainder below the divisor |
| MulDiv.DivisionUnique | src/cpu/worker.mlog.jinja:2088-2124 | truncating division has one quotient and one remainder, so the results are the ones of the ISA |
| MulDiv.DescriptorRoundTrip | src/cpu/controller.mlog.jinja:140-151 | mask, write label and read label come back from the packed CSR descriptor, for every mask and labels below 1000 |
| MulDiv.UnpackDescriptor | src/cpu/worker.mlog.jinja:2300-2348 | the idiv and mod sequence inverts the packing despite rounding |
| Numbers.RoundedTruncate | src/cpu/worker.mlog.jinja:2094-2104 | truncating the nearest double of a quotient of 32-bit numbers gives the exact quotient |
| Numbers.RoundedFloor | src/cpu/worker.mlog.jinja:2300-2348 | the floor of the nearest double of a quotient is the floor of the quotient |
| Numbers.ExactNearest | src/cpu/worker.mlog.jinja:2094-2104 | an integer up to 2^53 is the only double nearest to itself |
| Numbers.RelativeErrorIsNotEnough | src/cpu/worker.mlog.jinja:2094-2104 | a bound of 2^-53 on the relative error alone does not imply this: every integer quotient has a neighbour within the bound that truncates one too low |
| Numbers.RelativeErrorIff | src/cpu/worker.mlog.jinja:2094-2104 | for a dividend up to 2^32 that bound is enough exactly if the dividend is zero or no multiple of the divisor |
| AddressMap.ComputeLayout | src/config/base.mlog.jinja:32-50 | ICACHE_END, RAM_ICACHE_OFFSET and the other limits cover program ROM first and then RAM |
| AddressMap.PositionInjective | src/config/base.mlog.jinja:32-50 | RAM, ROM cache and RAM cache are pairwise disjoint |
| AddressMap.PositionBounds | src/config/base.mlog.jinja:32-50 | and stay inside the processors built for them |
| AddressMap.SlotCellInjective | src/cpu/worker.mlog.jinja:809-857 | no two words or slots share a processor variable |
| AddressMap.RomProcsApart | src/cpu/worker.mlog.jinja:887-905 | a ROM processor is never a RAM or cache processor |
| AddressMap.IterVariables | python/src/mlogv32/scripts/ram_proc.py:22-46 | the 4096 names of the mlogv32 format in order |
| AddressMap.VariableNameInjective | python/src/mlogv32/scripts/ram_proc.py:22-52 | they are different |
| LookupTables.GenerateCode | python/src/mlogv32/scripts/ram_proc.py:156-196 | lookup processor i / 260 holds name i under block id i mod 260, and the RAM lines hold the names in order, padded; fails exactly if there are too few names |
| LookupTables.VariableOrder | mod/src/main/kotlin/gay/object/mlogv32/ProcessorAccess.kt:226-245 | a processor's i-th variable after @counter is name i, so access by index and by name hit the same cell |
| LookupTables.LookupVariable | src/cpu/worker.mlog.jinja:839-857 | the lookup gives name i for every i |
| LookupTables.InitIncr | src/cpu/controller.mlog.jinja:89-115 | INCR maps every name to the next one and the last one of each page to null |
| LookupTables.PageOffsets | python/src/mlogv32/preprocessor/app.py:239-254 | the page character of a name's first character is its page modulo four |
| HostAccess.FlashRom | mod/src/main/kotlin/gay/object/mlogv32/ProcessorAccess.kt:56-80 | each touched ROM processor holds its chunk of the image, the others are unchanged; rejected exactly if the length is not a multiple of four or too large |
| HostAccess.FlashHolds | mod/src/main/kotlin/gay/object/mlogv32/ProcessorAccess.kt:56-80 | loads then see the image, zeros to the end of its last processor, and the old words behind it |
| HostAccess.FlashedBytes | mod/src/main/kotlin/gay/object/mlogv32/ProcessorAccess.kt:210-224 | the image reads back byte by byte |
| HostAccess.DumpRam | mod/src/main/kotlin/gay/object/mlogv32/ProcessorAccess.kt:86-100 | the file is the flat RAM from the start address on, in address order, cut at the end of RAM; all five argument errors |
| HostAccess.GetRamProc | mod/src/main/kotlin/gay/object/mlogv32/ProcessorAccess.kt:226-245 | processor and variable index of a RAM address |
| Uart.EndToEnd | src/peripherals/uart_link.mlog:9-59 | two computers over uart_link, for every interleaving of single memory accesses: bytes received (zeros from empty reads excluded by the driver's test) are a prefix of bytes sent, both ways, the rest being in the rings or in flight, and pointer words stay pointers |
| Uart.HostEndToEnd | mod/src/main/kotlin/gay/object/mlogv32/UartAccess.kt:15-50 | a computer and the host, for every interleaving: the host reads a prefix of what was sent, the CPU gets a prefix of what was accepted |
| UartProgress.LinkMoves | src/peripherals/uart_link.mlog:9-59 | from every valid state and for every interleaving: after 22 steps of the link, each direction with a byte to move and room for it has moved one, the oldest |
| UartProgress.DriverWorks | rust/mlogv32/src/io.rs:131-181 | a driver that begins to send while there is room, or to receive while there is a byte, has done so after 13 accesses of its own, in every interleaving |
| UartProgress.HostMoves | mod/src/main/kotlin/gay/object/mlogv32/UartAccess.kt:15-50 | the host takes the oldest byte that waits, and puts one down where there is room |
| Uart.BatchAccepted | mod/src/main/kotlin/gay/object/mlogv32/UartAccess.kt:15-50 | a batch of at most availableForWrite bytes is accepted whole, whatever the CPU does in between |
| Uart.CpuKeeps | src/cpu/worker.mlog.jinja:760-784 | every access of driver and CPU keeps its side consistent and touches only what it owns |
| Uart.PeerKeeps | src/cpu/worker.mlog.jinja:976-1023 | a side tolerates anything its far end may do, although its pointer copies are stale |
| Uart.LinkKeeps | src/peripherals/uart_link.mlog:9-59 | every instruction of the link keeps the bytes accounted for, in both directions |
| Uart.WiredReachable | src/peripherals/uart_link.mlog:9-59 | the joint invariant holds after every schedule |
| Rings.AdvanceWrite | src/cpu/worker.mlog.jinja:1695-1706 | publishing a byte appends it unless the ring is full, in which case every byte is lost |
| Rings.AdvanceRead | src/cpu/worker.mlog.jinja:981-992 | releasing a byte drops the oldest one |
| UartPorts.UartAccess.ReadAll | mod/src/main/kotlin/gay/object/mlogv32/UartAccess.kt:18-24 | returns the whole ring in order and empties it |
| UartPorts.UartAccess.Read | mod/src/main/kotlin/gay/object/mlogv32/UartAccess.kt:26-34 | returns the oldest byte, or null exactly if there is none |
| UartPorts.UartAccess.Write | mod/src/main/kotlin/gay/object/mlogv32/UartAccess.kt:36-48 | appends the byte, or refuses exactly if the ring is full |
| UartPorts.UartAccess.AvailableForWrite | mod/src/main/kotlin/gay/object/mlogv32/UartAccess.kt:15-16 | capacity minus the bytes waiting |
| UartPorts.UartAccess.Transmit | mod/src/main/kotlin/gay/object/mlogv32/ProcessorAccess.kt:492-502 | the serial loop drops no byte |
| UartPorts.UartPort.Read | rust/mlogv32/src/io.rs:131-140 | fills the buffer with the oldest bytes, in order, until one of them ends |
| UartPorts.UartPort.Write | rust/mlogv32/src/io.rs:160-167 | appends bytes in order until the ring is full |
| UartPorts.UartPort.ReadStatus | src/cpu/worker.mlog.jinja:996-1023 | the four FIFO bits of PG142's status register |
| UartPorts.UartPort.WriteTx | src/cpu/worker.mlog.jinja:1695-1706 | an unchecked store: appends, or loses the ring if it was full |
| UartPorts.UartPort.TryWriteByte | rust/mlogv32/src/io.rs:175-181 | never loses a byte |
| Mlog.IterLabels | python/src/mlogv32/preprocessor/parser/mlog.py:94-145 | succeeds exactly if assertions are balanced, not nested and true; then each label has the number of statements before it |
| Mlog.LengthAssertion | python/src/mlogv32/preprocessor/parser/mlog.py:107-133 | in an accepted program @counter + n at a start directive is the first statement after its end directive |
| Mlog.LabelTarget | python/src/mlogv32/preprocessor/parser/mlog.py:98-101 | a label's address is where the statements after it begin |
| LabelText.ReplaceSymbolicLabels | python/src/mlogv32/preprocessor/parser/mlog.py:213-263 | outside reference spans the text is unchanged, each span becomes its label's address; fails exactly on an unknown label |
| LabelText.DecimalValue | python/src/mlogv32/preprocessor/parser/mlog.py:233-236 | the inserted digits are the address |
| LabelText.ResolvedReads | python/src/mlogv32/preprocessor/parser/mlog.py:213-263 | in the new text every reference is digits that read as the address of its label |
| SavedVariables.CheckUnsavedVariables | python/src/mlogv32/preprocessor/parser/mlog.py:148-202 | no warning exactly if every write under the check is to a saved variable and every restoration is right; unsaved names are exactly those reported |
| SavedVariables.TargetByName | python/src/mlogv32/preprocessor/parser/mlog.py:148-194 | which argument each kind of statement writes |
| Handoff.TransparentIffClean | src/cpu/worker.mlog.jinja:51-150 | the workers cannot be told from one processor, for every schedule, budget, restart and meaning of the statements, exactly if no body statement mentions a worker-local name |
| Handoff.RunsRefine | src/cpu/worker.mlog.jinja:51-150 | over any run of turns, controller writes and restarts, in which the body sets its state before it jumps to reset, the active worker is the reference machine, which knows only the schedule; after the jump no worker is active |
| Handoff.StepRefines | src/cpu/worker.mlog.jinja:51-150 | each event keeps that refinement |
| Handoff.TakeoverRefines | src/cpu/worker.mlog.jinja:52-150 | a takeover only counts a cycle |
| Handoff.TickCounts | src/cpu/worker.mlog.jinja:128-139 | counting a cycle adds one to mcycle and mcycleh as one number, and changes nothing else |
| Handoff.PokeRefines | src/cpu/controller.mlog.jinja:267-320 | a controller update reaches the next worker |
| Handoff.RestartRefines | src/cpu/controller.mlog.jinja:30-66 | a restart parks the active worker and hands the controller's variables to the next one |
| Handoff.AlwaysOneActive | src/cpu/worker.mlog.jinja:140-150 | whatever the program and the schedule, at most prev_proc is not parked |
| Handoff.PassingTransparent | python/src/mlogv32/preprocessor/parser/mlog.py:148-202 | a program that passes the check, and whose body mentions neither prev_proc nor a pushed name, is transparent |
| Handoff.PassingIsNotEnough | python/src/mlogv32/preprocessor/parser/mlog.py:187-194 | every passing program has a passing extension that is not: the check does not look at reads of popped names |
| LocalVariables.LocalVariables.Perform | python/src/mlogv32/preprocessor/extensions.py:188-265 | any operations on names succeed, and leave cache, freed slots, index and largest, exactly as the specification Run does; largest never drops |
| LocalVariables.StepConserves | python/src/mlogv32/preprocessor/extensions.py:188-265 | an operation, failed or not, keeps live and freed slots disjoint and together the slots given out, exactly if it is no use of an undeclared dollar name; that one leaves exactly one slot in neither |
| LocalVariables.RunConserves | python/src/mlogv32/preprocessor/extensions.py:188-265 | a successful run conserves the slots, and largest bounds every index ever given |
| LocalVariables.UnsortedAfterFailure | python/src/mlogv32/preprocessor/extensions.py:213-230 | a failed free_locals that leaves the freed slots out of order |
| LocalVariables.FailedFreeSortedIff | python/src/mlogv32/preprocessor/extensions.py:213-230 | free_locals succeeds exactly if every name has a slot and none comes twice; if it fails, the list stays sorted exactly if the leading names that could be freed were given from the largest slot down, below every slot freed before |
| LocalVariables.LocalVariables.LocalVariable | python/src/mlogv32/preprocessor/extensions.py:235-265 | a known name keeps its slot, a new one gets the smallest freed slot or the next number, an undeclared dollar name fails after taking a slot |
| LocalVariables.LocalVariables.FreeLocals | python/src/mlogv32/preprocessor/extensions.py:213-230 | frees exactly the leading names that have a slot; fails if there are more, and then the allocator is still valid exactly if their slots were in order; success sorts the freed slots for reuse |
| LocalVariables.LocalVariables.DeclareLocals | python/src/mlogv32/preprocessor/extensions.py:196-210 | declares every name, or fails on one without two dollars |
| LocalVariables.LocalVariables.ResetLocals | python/src/mlogv32/preprocessor/extensions.py:188-194 | starts over, or fails below one |
| LocalVariables.Count | python/src/mlogv32/preprocessor/extensions.py:188-265 | live plus freed slots are as many as were given out |
| Dispatch.ResolveInstructions | python/src/mlogv32/preprocessor/models.py:72-102 | every entry is at its given address or the first aligned one after its predecessor, up_to entries end there; rejected exactly if an entry has no such place |
| Dispatch.SlotsIncrease | python/src/mlogv32/preprocessor/models.py:72-102 | slots of different entries are different and increase |
| Dispatch.FillTable | src/cpu/controller.mlog.jinja:117-138 | unrolled and looped fills write every slot with its entry's label and nothing else |
| Dispatch.PlacedUnique | python/src/mlogv32/preprocessor/models.py:72-102 | the resolution is the only one |
| Dispatch.UniformLayout | python/src/mlogv32/preprocessor/models.py:72-102 | entries without an address and with one alignment lie side by side from the start of the table |

## Left out

- The rule for when interrupts fire, and the logarithm that picks the highest pending one: whether and which interrupt is taken is an input of each step.
- Interrupt pending bits, timers, counters other than mcycle at a takeover, breakpoints and single-step; the value of such a register is an input of the step that reads it.
- Worker.Hart.ExecuteMemory: what a device does with a load or store is an input of the step; the UART behind it is modelled in `Uart` and `UartPorts`, the timer is not.
- Translation.Translate: page tables inside device registers raise the access fault here, where the code reads the register.
- Worker.Hart.Run: a stray word store ends the followed run even if it is harmless, because the instruction set asks for an access fault there and the code reports success.
- The delays of PAUSE and WFI.
- LoadStore.MemoryUnit.StoreWord: the lost write of a store below RAM goes to a name that no processor holds and is taken to have no effect.
- Handoff.RunsRefine: workers are values in a state machine, and a takeover is one step; statements of kinds that the saved-variable check does not know are taken to write no variable; a body that jumps to reset while its state is still running is excluded, and the worker's body never does.
- Uart.EndToEnd: without control-register resets, which drop bytes on purpose; the host acts between two accesses, as it runs on the game's main thread.
- UartPorts.UartPort.Read: the buffer loops of driver and host are stated without interference; interleaving is in `Uart`.
- LocalVariables.LocalVariables.Perform: string names only; lists reset earlier declarations and integer names move the index.
- LabelText.ReplaceSymbolicLabels: token spans are taken as the parser reports them, and the second parse that checks the result is not modelled.
- Dispatch.ResolveInstructions: the float division in the rounding is exact for addresses of this size.
- Csr.DescriptorAgrees: handlers of registers outside the modelled state share one entry point.
- AddressMap.ComputeLayout: sizes are whole processors, as the builder makes them.
- HostAccess.FlashRom: missing ROM processors, and the padding of unaligned images by the schematic builder.
- Jinja rendering, the grammar, YAML and schematics, sockets and requests, debugger, displays, keyboard, CoreMark, MicroPython, OpenSBI, Linux and embassy code.
