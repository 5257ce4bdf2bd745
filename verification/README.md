# A verified model of an i386 emulator

The emulator keeps an i386 process in a handful of C globals: eight general registers, `eip`, EFLAGS, the segment
registers, the GDTR and one flat byte array. One C function per instruction changes them. This project models the
parts of it that compute something hard to get right, and proves what they promise for every input and every run:

- the REP string engine, where one dispatch is one iteration and a copy is a run of a state machine;
- the stack instructions over byte memory, as an implementation of an abstract stack of dwords, and nested calls;
- ADD, ADC, SUB, SBB, CMP, the divisions and the right shifts, against integer arithmetic, alone and chained over
  limbs;
- the initial process stack, the symbol-table sort, and the viewer's incremental function cursor;
- the descriptor table with its thread-local-storage slot allocator and descriptor encoding.

The references are the Intel 80386 Programmer's Reference Manual (Appendix C for flags, section 3.1.2 for the stack,
section 3.6.1 for REP, sections 5.1.1 and 5.1.3 for descriptors and selectors) and section 2.3 of the System V ABI
Intel386 supplement. Where the code departs from them the model follows the code.

## How the model is built

Machine integers are subset types of `int`, and wrap-around is written out. Bitwise operators are defined bit by bit on
natural numbers in `Bits.dfy`, so that the flag formulas of `flags.c` appear as they are written and are then proved
equal to arithmetic; shifts and masks by constants are written as `/` and `%`, and joins of disjoint bit-fields as sums.
Memory has `UINT32_MAX` bytes, the size that is allocated; an access outside it is undefined in C and is excluded by
precondition, or ends a run with `None`.

Each instruction has a specification function on the value `Machine.State`. The class `Machine.Cpu` holds the mutable
globals with memory as an array, and the methods in `StackInstr.dfy`, `AluInstr.dfy`, `StringInstr.dfy`, `Syscalls.dfy`
and `Loader.dfy` run on it in the order of the C statements, except that `eip`, which no operand reads, may move last;
each is proved to take `Abs()` to what the specification function says. The theorems are about the specification
functions and about runs of them.

| file | contents |
|---|---|
| `Bits.dfy`, `Words.dfy` | bitwise operators; words, memory, little-endian reads and writes |
| `Flags.dfy`, `Alu.dfy` | EFLAGS and flag predicates; ADD, ADC, SUB, SBB, CMP on values |
| `Limbs.dfy`, `LimbRuns.dfy` | multi-limb addition and subtraction, on values and in memory |
| `Shifts.dfy`, `ShiftRuns.dfy` | multi-limb right shifts, on values and in memory |
| `Division.dfy` | DIV, IDIV, CDQ |
| `Machine.dfy` | state, operands, effective addresses, segment bases, the class `Cpu` |
| `Stack.dfy`, `StackRuns.dfy` | stack instructions, the abstract machine, runs, nested calls |
| `RepMovs.dfy`, `RepStos.dfy`, `RepDown.dfy` | REP MOVS and REP STOS with DF clear, and with DF set |
| `Gdt.dfy` | initial table, descriptor codec, slot allocator |
| `StackImage.dfy` | layout of the initial process stack |
| `Symbols.dfy` | symbol sort and function cursor |
| `StackInstr.dfy`, `AluInstr.dfy`, `StringInstr.dfy`, `Syscalls.dfy`, `Loader.dfy` | the imperative side |

## Findings

- ADC tests its carry with `val1 > res`, and so loses it for a carry-in of 1 with an all-ones source. `AddChainExact`
  shows that a k-limb addition is right exactly when this does not happen, with the condition stated on the true sums
  of the operands' low limbs; `LostCarryExample` is a two-limb instance.
- SBB wraps `val + CF` and loses a borrow in the same case (`SubChainExact`, `LostBorrowChain`). The two defects match:
  SUB/SBB undoes ADD/ADC for all operands, and its final borrow equals the earlier carry flag, without exception.
- OF after SUB and CMP uses the addition formula. For operands of equal sign it is the signed overflow of the difference
  exactly when the difference keeps that sign, and for operands of different sign exactly when the difference does not
  overflow (`SubOverflowExact`). JL, JGE, JG and JNG inherit that condition, so JL is not taken after comparing 0
  with 1. JLE tests `ZF && SF != OF`, and is right only for a greater first operand and for equal negative operands
  (`BranchesAfterCmp`).
- The viewer's cursor stays put for an address below its function. It agrees with a full lookup exactly when a row is
  not below the function of the row before it, which non-decreasing rows never are; `CursorStaysExample` is a row
  that is.
- REP MOVSD and REP MOVSB agree for every overlap except a destination d = 1, 2 or 3 bytes above the source, where they
  agree exactly when every source byte that a dword reads ahead (i mod 4 >= d) equals source byte i mod d.
- DIV and IDIV take their divisor from `operands[1]` (src/instr.c:2139, src/instr.c:2243), which a one-operand DIV does
  not have. The `src` of `DivI` and `IdivI` is the operand that the code reads there.
- POP into esp adds 4 to the popped dword (`PopEsp`); the manual's POP leaves the dword itself.
- `argv_emu[1]` is pushed without having been assigned; the model takes its value as an input.

## Model

| member | source | states |
|---|---|---|
| Flags.Parity | src/flags.c:91-99 | the loop over the low byte returns whether its number of ones is even |
| Flags.EvenOnesBits | src/flags.c:91-99 | the parity predicate is that the eight low bits sum to an even number |
| Flags.AssignBit | src/flags.c:14-25 | set_Flag and clear_Flag decide exactly one of the 32 bits and keep the other 31 |
| Flags.ComplementBit | src/flags.c:32-34 | complement_Flag flips exactly one of the 32 bits |
| Flags.TestIsBit | src/flags.c:43-45 | test_Flag is true exactly when the mask's bit is set |
| Flags.ArithFlagsBit | src/instr.c:536-541 | the six flag assignments of an arithmetic instruction land on six different bits and change no other |
| Alu.SignIsNegative | src/flags.c:66-68 | sign is negativity in two's complement at 8, 16 and 32 bits |
| Alu.OverflowIsSigned | src/flags.c:80-82 | the xor-and-shift formula is signed overflow of an addition with any carry-in, at every width |
| Alu.AdjustIsNibbleCarry | src/flags.c:110-112 | the xor-and-mask formula is the carry out of bit 3 of an addition with any carry-in, at every width |
| Alu.AddCorrect | src/instr.c:466-544 | ADD at 8, 16 and 32 bits for all operands: sum, CF exactly on unsigned overflow, OF, SF, ZF, AF and PF as Appendix C requires, every other EFLAGS bit kept |
| Alu.AdcCorrect | src/instr.c:374-453 | ADC at every width: sum and flags against integer arithmetic; CF is the true carry if and only if not (carry-in 1 and all-ones source) |
| Alu.SubCorrect | src/instr.c:1653-1723 | 32-bit SUB: difference, CF the unsigned order, ZF equality, SF, PF, AF the borrow out of bit 3, OF as the code's formula decides it by signs, other bits kept |
| Alu.SubOverflowExact | src/instr.c:1715 | OF after SUB or CMP is signed overflow of the difference if and only if, for operands of equal sign, the difference keeps that sign, and for operands of different sign, the difference is in range |
| Alu.SubOverflowExample | src/instr.c:1346 | comparing 0 with 1 sets OF although 0 - 1 does not overflow |
| Alu.SbbCorrect | src/instr.c:5605-5675 | 32-bit SBB: difference, ZF, SF, PF, other bits kept; CF is the true borrow if and only if not (borrow-in 1 and all-ones source), AF the true borrow out of bit 3 if and only if not (new CF 1 and all-ones low nibble), OF by the signs of the operand, the source plus the new CF, and the result |
| Alu.LostBorrowExample | src/instr.c:5667 | subtracting 2^32 - 1 and a borrow-in from 0 leaves CF clear although it borrows |
| Limbs.AdcChainTotal | src/instr.c:374-453 | ADC over any number of limbs never overstates the sum, and totals it (value plus carry) exactly when no carry is lost |
| Limbs.AddChainExact | src/instr.c:466-544 | ADD then ADC over k limbs gives (A+B) mod 2^(32k) with CF the carry out, if and only if no ADC meets a true carry-in with an all-ones source |
| Limbs.LostCarryExample | src/instr.c:445 | a two-limb addition whose carry out the code loses |
| Limbs.SbbChainUndoes | src/instr.c:5605-5675 | SBB over any limbs recovers the ADC operand and repeats its carry flag, given equal incoming carries |
| Limbs.SubChainUndoesAddChain | src/instr.c:1653-1723 | SUB/SBB of B undoes the ADD/ADC chain of B for every k and all operands, with final borrow equal to the earlier carry flag |
| Limbs.SbbChainNet | src/instr.c:5605-5675 | SBB over any number of limbs never understates the difference, and states it (value minus borrow) exactly when no borrow is lost |
| Limbs.SubChainExact | src/instr.c:1653-1723 | SUB then SBB over k limbs gives (A-B) mod 2^(32k) with CF exactly when A < B, if and only if no SBB meets a true borrow-in with an all-ones source |
| Limbs.LostBorrowChain | src/instr.c:5667 | a two-limb subtraction whose borrow the code loses |
| LimbRuns.LimbRunComputes | src/instr.c:425-431 | the instructions run one after another on dwords in memory compute the limb chain, thread CF, and change nothing outside those dwords |
| LimbRuns.AdditionInMemory | src/instr.c:517-522 | in memory, the ADD/ADC run leaves the true sum and carry exactly when no carry is lost, and touches only the destination |
| LimbRuns.SubtractionInMemory | src/instr.c:1707-1712 | in memory, the SUB/SBB run leaves the true difference and borrow exactly when no borrow is lost, and touches only the destination |
| LimbRuns.SubtractionUndoesAddition | src/instr.c:1707-1712 | in memory, the SUB/SBB run after the ADD/ADC run restores memory byte for byte, and the registers, with the same carry flag |
| Shifts.ShrdIsSum | src/instr.c:7046-7048 | 32-bit SHRD is the quotient of the destination plus the source's low bits in the vacated places |
| Shifts.ShiftChainDivides | src/instr.c:6989-7059 | SHRD over adjacent limbs and a final SHR compute floor(N / 2^k) for every limb count and 0 < k < 32 |
| ShiftRuns.ShiftRunComputes | src/instr.c:6989-7059 | MOV, SHRD and a final SHR run one after another on dwords in memory compute the limb chain and its flags, and change nothing but those dwords and the scratch register |
| ShiftRuns.ShiftInMemory | src/instr.c:6989-7059 | in memory, that run divides the number by 2^k for every limb count and 0 < k < 32 |
| Shifts.ShrdFlags | src/instr.c:7045-7056 | SHRD sets CF to the last bit shifted out, SF, ZF and PF from the result, and no other bit |
| Shifts.ShrFlags | src/instr.c:6936-6956 | SHR divides by 2^k, sets CF to the last bit shifted out, SF, ZF, PF from the result, clears OF, keeps the rest |
| Shifts.FirstShrdCarry | src/instr.c:7045 | the first SHRD of a chain leaves in CF bit k-1 of the whole number |
| Division.DivCorrect | src/instr.c:2135-2221 | DIV at 8, 16 and 32 bits signals interrupt 0 exactly when the high half is at least the divisor, and else quotient times divisor plus remainder is the dividend, the remainder is smaller, and other register bits stay |
| Division.IdivCorrect | src/instr.c:2299-2323 | 32-bit IDIV signals interrupt 0 exactly when the truncated quotient is no int32, and else returns it with a remainder of the dividend's sign |
| Division.CdqExtends | src/instr.c:2045-2054 | after CDQ, edx:eax is the sign extension of eax |
| Division.CdqIdivCorrect | src/instr.c:2299-2323 | CDQ then IDIV faults exactly for the least int32 divided by -1, and else truncates toward zero with the matching remainder |
| AluInstr.ArithI | src/instr.c:466-544 | the method for ADD, ADC, SUB and SBB with register, immediate or memory operands takes the machine to the specified state |
| Machine.WriteStores | src/instr.c:495-522 | a store of 8, 16 or 32 bits to a register or memory operand leaves the value in the operand's own bits or bytes, and keeps the rest of the register, all other registers and all other memory |
| Machine.ReadValue | src/instr.c:466-530 | an operand read is the low bits of the register, the immediate, or the little-endian number in its bytes |
| AluInstr.ArithStores | src/instr.c:466-544 | after ADD and ADC at 8, 16 and 32 bits and 32-bit SUB and SBB the destination's own bits or bytes hold the result modulo 2^width, those beside them are kept, and the flags are the sum's (for ADC CF unless carry-in 1 meets an all-ones source) |
| AluInstr.MovI | src/instr.c:1424-1461 | 32-bit MOV between registers, immediates and memory takes the machine to the specified state |
| AluInstr.CmpI | src/instr.c:1271-1353 | CMP changes eip and the flags only, as the 32-bit subtraction of its operands decides |
| AluInstr.ConditionsAfterCmp | src/instr.c:1271-1353 | after 32-bit CMP each of the six unsigned conditions holds exactly when its relation holds on the operands as naturals |
| AluInstr.BranchesAfterCmp | src/instr.c:3210-3317 | after 32-bit CMP the tests of JL and JGE decide the signed relation if and only if OF is signed overflow, those of JG and JNG also for equal operands, and that of JLE (which joins its two halves by AND instead of OR) only for a greater first operand or equal negative ones; the unsigned tests always do |
| AluInstr.SignedJumpExample | src/instr.c:3276-3306 | after comparing 0 with 1 JL is not taken, and after comparing 0 with 0 JLE is not |
| AluInstr.CmpThenJump | src/instr.c:2939-3047 | CMP then JA, JAE, JB, JBE, JE or JNE continues at the target exactly when the relation holds, and else after the jump; JL, JGE, JG, JLE and JNG do so if and only if their test decides the relation; nothing but eip and the flags changes |
| AluInstr.CmpThenSet | src/instr.c:5734-5849 | CMP then SETA, SETAE, SETB, SETBE, SETE or SETNE puts 1 exactly when the relation holds, else 0, in the low 8 bits of a register or one byte of memory, and keeps the other 24 bits, all other registers and all other memory |
| AluInstr.JumpI | src/instr.c:2939-2957 | a conditional jump changes eip only, and reads its target only when taken |
| AluInstr.SetI | src/instr.c:5734-5754 | SETcc stores one byte |
| AluInstr.DivI | src/instr.c:2135-2221 | DIV returns -1000 and leaves eax and edx on interrupt 0, and else delivers quotient and remainder |
| AluInstr.DivLeaves | src/instr.c:2135-2221 | the state after DIV: -1000 exactly when the high half reaches the divisor, with all registers kept; else 0, quotient times divisor plus remainder is the old dividend in AL and AH, AX and DX or EAX and EDX, and everything else but eip is kept |
| AluInstr.CdqI | src/instr.c:2045-2054 | CDQ changes edx and eip only |
| AluInstr.IdivI | src/instr.c:2299-2323 | 32-bit IDIV returns -1000 and leaves eax and edx on interrupt 0, and else delivers quotient and remainder |
| AluInstr.IdivLeaves | src/instr.c:2299-2323 | the state after 32-bit IDIV: -1000 exactly when the truncated quotient is no int32, with all registers kept; else eax holds it and edx the remainder of the dividend's sign |
| AluInstr.CdqIdivLeaves | src/instr.c:2045-2054 | the state after CDQ then IDIV: a fault exactly for the least int32 divided by -1, and else eax and edx hold the truncated quotient and remainder of the old eax |
| AluInstr.ShrdI | src/instr.c:6989-7059 | SHRD with a register or memory destination, shifted in place before the source register is read (one register for both sees the shifted value), including the count of 0 that changes nothing |
| AluInstr.ShrdStores | src/instr.c:6989-7059 | the state after SHRD with the count masked to k: the destination holds its quotient by 2^k plus the source's low k bits on top, where one register for both supplies its own quotient; a count of 0 changes eip only |
| AluInstr.ShrI | src/instr.c:6904-6959 | SHR on a register, including the count of 0 that changes nothing |
| AluInstr.ShrStores | src/instr.c:6904-6959 | the state after SHR with the count masked to k: the register holds its quotient by 2^k and no other register changes; a count of 0 changes eip only |
| Words.ReadBack | src/instr.c:7691-7717 | read32 finds what write32 stored |
| Words.ReadOther | src/instr.c:7691-7717 | write32 leaves every disjoint dword |
| Words.BytesOfGet | src/instr.c:7712-7717 | the bytes of a dword read from memory are the bytes at that address, in order |
| Machine.Cpu.Write32 | src/instr.c:7691-7696 | write32 stores exactly the four little-endian bytes |
| Machine.EffAddrSigned | src/instr.c:7638-7655 | the address is the sum of the signed segment base, base, scaled index and displacement modulo 2^32, and that sum itself whenever it is an address, so negative displacements and indices count downwards |
| Machine.SegmentNamed | src/instr.c:7648-7651 | the segment part of an address is the base of the descriptor that the named register (CS, DS, SS, ES, FS or GS) selects by bits 3 to 15, modulo the nine entries |
| Machine.Cpu.constructor | src/instr.c:110-113 | memory starts as UINT32_MAX zero bytes, EFLAGS as 0x202 |
| Stack.PushRefines | src/instr.c:1576-1603 | PUSH adds one dword on top of the abstract stack and writes only that dword |
| Stack.PushAllRefines | src/instr.c:5291-5314 | PUSHAD adds the eight registers in order, with the old esp |
| Stack.PopAllRefines | src/instr.c:5179-5201 | POPAD takes eight dwords, delivering seven to their registers and skipping the stored esp |
| Stack.PopMemRefines | src/instr.c:1631-1635 | POP to memory delivers the top dword and disturbs no dword that stays |
| Stack.PopFdBits | src/instr.c:5234-5241 | after POPFD bits 0 to 15 of EFLAGS are those of the top dword and bits 16 to 31 are kept |
| Stack.PopEsp | src/instr.c:1616-1629 | POP into esp leaves the popped dword plus 4 in it |
| Stack.OperandTaken | src/instr.c:1125-1145 | PUSH stores its operand's value and CALL continues at it, both read before esp moves, and CALL stores the address of the next instruction |
| Stack.PushAdIsPushes | src/instr.c:5291-5314 | PUSHAD is the eight PUSHes of the named registers, the fifth with the esp from before |
| Stack.PopAdIsPops | src/instr.c:5179-5201 | POPAD is the eight POPs to the named registers, of which the fourth is overwritten |
| Stack.RetRefines | src/instr.c:1099-1112 | RET takes the return address and imm/4 further dwords |
| Stack.StepRefines | src/instr.c:1576-1639 | every disciplined PUSH, POP, CALL, RET, PUSHAD, POPAD, PUSHFD or POPFD is one step of the abstract machine and writes only in the stack zone or where POP stores |
| StackRuns.RunRefines | src/instr.c:1576-1639 | over every disciplined run the dwords from esp to the base, the registers, eip and flags are those of the abstract machine, which never underflows |
| StackRuns.RunFrame | src/instr.c:1576-1639 | over every such run memory outside the zone changes only where a POP to memory stores, and segment registers and GDTR stay; memory at or above the base is never changed by stack traffic |
| StackRuns.NestedCallsReturn | src/instr.c:1099-1145 | in every properly nested execution whose bodies are balanced and write below their slot, at every depth: RET resumes after its own CALL with esp restored plus imm, POPAD restores all eight registers, POPFD the low half of EFLAGS and keeps the high half that the body left |
| StackRuns.DeepCallsReturn | src/instr.c:1099-1145 | CALLs nested to any depth that the stack has room for are such an execution and come back to the instruction after the first CALL with esp as it was |
| StackInstr.PushI | src/instr.c:1576-1603 | the method takes the machine to the specified state |
| StackInstr.PopI | src/instr.c:1616-1639 | the same, for a register or memory destination, with the effective address taken before esp moves |
| StackInstr.CallI | src/instr.c:1125-1145 | the target is read before the return address is pushed |
| StackInstr.RetI | src/instr.c:1099-1112 | eip from the top, esp up by 4 plus the immediate |
| StackInstr.PushAdI | src/instr.c:5291-5314 | eight pushes in order with the esp from before |
| StackInstr.PopAdI | src/instr.c:5179-5201 | seven registers popped, one slot skipped |
| StackInstr.PushFdI | src/instr.c:5347-5354 | EFLAGS pushed whole |
| StackInstr.PopFdI | src/instr.c:5234-5241 | only the low half of EFLAGS replaced |
| RepMovs.MovsAfter | src/instr.c:7556-7608 | the state after k of n iterations in closed form, for every element size and every overlap of the buffers |
| RepMovs.MovsRunsExactly | src/instr.c:7556-7608 | re-dispatching takes exactly n steps, eip and the instruction's bytes staying until the last; then ecx is 0, both pointers have moved by n*s and memory outside the destination is unchanged |
| RepMovs.MovsCopies | src/instr.c:7565-7606 | the destination is the old source if edi <= esi or edi >= esi+n*s, and the source repeated with period d if it starts d >= s bytes above (every d > 0 for bytes) |
| RepMovs.WideCopyRefinesByteCopy | src/instr.c:7565-7606 | MOVSD of n and MOVSB of 4n end in the same state if and only if the destination is not d = 1, 2 or 3 bytes above the source, or every source byte i with i mod 4 >= d equals source byte i mod d |
| RepMovs.WideCopyDiffers | src/instr.c:7565-7606 | for those shifts they end in different states on every memory whose source bytes 0 and d differ |
| RepStos.StosFillsExactly | src/instr.c:7470-7526 | re-dispatching takes exactly n steps and writes n copies of AL, AX or EAX, lowest byte first, from the base of the descriptor that ES selects plus edi on, and nothing else, for any ES whose destination is apart from the table |
| RepStos.FlatFill | src/instr.c:7470-7526 | over the table of init_gdt with ES = 0x2B the fill starts at address edi |
| RepStos.WideFillRefinesByteFill | src/instr.c:7470-7526 | with four equal bytes in eax, STOSD of n equals STOSB of 4n |
| RepDown.DownAfter | src/instr.c:7556-7608 | with DF set, the state after k of n iterations in closed form for every element size and overlap: upside down, memory is that of an upward copy |
| RepDown.MovsDownRuns | src/instr.c:7556-7608 | with DF set, re-dispatching takes exactly n steps, writes only the n elements that end at edi, and leaves both pointers n*s lower modulo 2^32 |
| RepDown.MovsDownCopies | src/instr.c:7565-7606 | with DF set, the destination is the old source if it lies at or above the source or wholly below it, and the source repeated with period d, counted from the top, if it starts d >= s bytes below |
| RepDown.StosDownFills | src/instr.c:7470-7526 | with DF set, re-dispatching takes exactly n steps and writes n copies of the accumulator downwards from the base of the descriptor that ES selects plus edi, and nothing else |
| StringInstr.RepMovsI | src/instr.c:7556-7608 | one dispatch of REP MOVS |
| StringInstr.RepStosI | src/instr.c:7470-7526 | one dispatch of REP STOS, with the base of ES read again |
| StringInstr.RunRepMovs | src/proc.c:490-521 | dispatching for as long as eip stays ends after n iterations in the state of the run |
| Gdt.InitialTableIsFlat | src/instr.c:169-210 | init_gdt leaves every base 0 and the three TLS slots free, and writes nothing outside the table |
| Gdt.InitialSegments | src/instr.c:169-210 | limit, access and granularity of the nine entries: null; code and data at privilege level 0 and at level 3 with 2^20 32-bit pages; access 0x89 with a 64 KB limit in entry 3 and the TLS entries |
| Gdt.DescriptorRoundTrip | src/syscall.c:2071-2095 | a descriptor gives back the segment it was built from if and only if the limit is below 2^20 and contents is 0 or 2 |
| Gdt.BaseRoundTrip | src/syscall.c:2075-2077 | the full 32-bit base survives, always |
| Gdt.StoreFieldsApart | src/syscall.c:2072-2095 | the field stores, each reading the user_desc again, leave the encoding of that user_desc and nothing else whenever it does not overlap the descriptor |
| Gdt.AreaWrites | src/syscall.c:2070-2098 | a successful call writes the nine descriptor bytes and the entry number, and nothing else |
| Gdt.DescriptorBytes | src/syscall.c:2070-2077 | base and low limit bytes of the descriptor are the bytes of the user_desc in memory |
| Gdt.DescriptorBits | src/syscall.c:2078-2095 | access has privilege level 3, and its type and present bits, and the granularity bits, are those that the bit-fields of the user_desc in memory ask for |
| Gdt.SlotRule | src/syscall.c:2051-2068 | the slot is an explicit entry number modulo 256, or for -1 the first TLS entry whose used byte is 0, or none |
| Gdt.AreaAllocates | src/syscall.c:2051-2068 | with k TLS slots taken a call with entry number -1 takes slot 6+k and keeps all other descriptors, or for k = 3 returns -1 with memory unchanged |
| Gdt.ThreadAreaRun | src/syscall.c:2045-2101 | over any run of such calls the results are success in slot order, then -1; every slot ends with the base of the request that took it, or the base it had |
| Gdt.ThreadPointer | src/instr.c:7648-7655 | after such a call an operand through FS or GS holding a selector of the entry returned addresses the base in the user_desc plus the displacement |
| Gdt.SelectorNamesSlot | src/instr.c:219-229 | get_gdt_base of a selector is the base of its descriptor, its number taken modulo nine, whatever the RPL and TI bits |
| Syscalls.InitGdtI | src/instr.c:169-210 | the loop fills the nine entries |
| Syscalls.Initialize | src/instr.c:86-129 | registers, segments and GDTR as initialize sets them, over a flat table with free TLS slots |
| Syscalls.FindFree | src/syscall.c:2056-2067 | the scan finds the first free of the three slots, or none |
| Syscalls.SetThreadAreaI | src/syscall.c:2045-2101 | the field-by-field stores give the specified memory and result, with explicit entry numbers and for a user_desc anywhere in memory, overlapping the descriptor or not |
| StackImage.AuxIsReversed | src/loader.c:101-139 | the guest vector is the host vector up to AT_NULL reversed, without types 32 and 33, values mapped by their getters |
| StackImage.EntryLayout | src/loader.c:143-206 | esp is 4-aligned and the dwords from it, ending less than 4 bytes below the strings, are argc-1, the argument pointers (the first as it was found), NULL, the environment pointers, NULL, and the reversed auxiliary vector ended by (0,0) |
| StackImage.StringsIntact | src/loader.c:150-170 | every copied string is intact and NUL-terminated at its pointer, above the pointer area, and disjoint from every other string |
| StackImage.EnvironmentAddressed | src/loader.c:150-201 | the dword read from environment slot i addresses an intact, NUL-terminated copy of environment string i |
| StackImage.ArgumentAddressed | src/loader.c:150-206 | the dword read from argument slot i, for i >= 2, addresses an intact, NUL-terminated copy of argument i |
| StackImage.AuxTargetsIntact | src/loader.c:171-180 | AT_RANDOM addresses the random words and AT_PLATFORM the string x86 |
| StackImage.AuxEntryInMemory | src/loader.c:28-139 | every host entry before AT_NULL except types 32 and 33 is read from memory in reversed order: its type, and ph_addr, ph_size, ph_num, 0, the entry point or execfn for types 3, 4, 5, 7, 9 and 31, the address of x86 for 15 and 24, of the random words for 25, and else the host value modulo 2^32 |
| StackImage.AuxEntryHasHost | src/loader.c:117-139 | every auxiliary entry in memory has a host entry behind it, none has type 32 or 33, and two zeros end them |
| StackImage.LoadFrame | src/loader.c:143-206 | memory below the final esp, from the initial esp up, and in the alignment gap is unchanged |
| Loading.Loader.ReadAuxv | src/loader.c:101-139 | the push loop leaves exactly the specified words below the old esp |
| Loading.Loader.LoadStack | src/loader.c:143-206 | the loops leave exactly the specified memory and esp, for every argv, envp and auxiliary vector that fit |
| Symbols.SortSymbols | src/loader.c:377-396 | the selection sort over interleaved words leaves addresses non-decreasing, the multiset of (name, address) pairs unchanged, and words past the table alone |
| Symbols.NextIsLookup | src/proc.c:359-383 | from a correct cursor a later row reads only inside the table and gives the full lookup's cursor if and only if its address is not below the current function |
| Symbols.CursorStaysExample | src/proc.c:361 | with functions at 10, 20 and 30, a row at 15 leaves the cursor on the second, although 15 belongs to the first |
| Symbols.NonDecreasingRows | src/proc.c:348-384 | rows at non-decreasing addresses never fall below the function of the row before |
| Symbols.FirstRow | src/proc.c:348-358 | the scan of the first row is the full lookup |
| Symbols.NextRow | src/proc.c:359-383 | the three incremental cases and the fallback scan |
| Symbols.CursorOfRows | src/proc.c:348-384 | row by row strcount, fbase, limit and name are those of the unique entry that contains the row's address, duplicates included |

## Left out

- Capstone decoding, mnemonic dispatch, port I/O, ELF reading, pass-through system calls and the terminal interface: foreign calls or thin wrappers. The decoded instruction is an input, with immediates already extended.
- REP with ecx = 0 is outside the code's own assumption.
- 16-bit PUSH, POP, PUSHA, POPA, PUSHF and POPF, LEAVE, and POP into esp inside runs (the last is modelled as one instruction).
- SUB, SBB and CMP at 8 and 16 bits, 8- and 16-bit IDIV, and 8- and 16-bit SHR and SHRD: the code reads or writes other widths there, or adds only the same argument again.
- The signed SETcc instructions, whose tests differ from those of the jumps of the same name, and the remaining synonyms of the modelled jumps.
- Instructions whose code does not follow the manual (LOOP, BSF, BSR, AAA, RCL, RCR, the high halves of MUL and IMUL) and the decimal adjustments.
- Signed 32-bit division of INT64_MIN by -1 and any division by zero: undefined in C.
- The memory operand of a PUSH or CALL enters the abstract stack machine as a supplied value.
- Explicit TLS entry numbers are modelled with their truncation to eight bits but take no part in the run theorem.
- A symbol count of 0, for which the loop bound wraps around.
