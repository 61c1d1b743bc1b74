# rvvk, modelled and verified

rvvk runs one RV64IMAC Linux program as a user process. It decodes guest code
into blocks of instructions, keeps the blocks in a hash table, links them to
each other, and runs handler functions back to back without touching `pc`
until a block ends. Before that it builds the program's memory image and its
initial stack. This project models those parts in Dafny and proves what they
promise.

## How the proof is built

**The engine.** Three layers, from the code up.

1. `Cpu.State` and `Engine.Engine` are classes with the fields of `state_t`,
   `trans_block_t`, the 4096-slot table, the instruction buffer and its bump
   pointer. Their methods have the loops and the pointer updates of
   `arch/riscv/cpu.c` and of `decode`/`translate`. Each is proved equal to a
   function on values; `CpuLoop` is proved equal to `CacheMachine.CacheRun`
   with no hypothesis on the guest program: not on its code, its links, its
   exceptions or its system calls.
2. `CacheMachine` is the emulator without its data structures: a machine, a
   map from addresses to translations, and a count of used slots.
3. `Reference` fetches, decodes and executes one instruction at a time.
   `CacheRefinesReference` relates layers 2 and 3 for any number of blocks,
   and `Engine.Emulate` joins all three.

The reference uses the repository's own handlers (`Machine.Exec`), so these
theorems are about caching, chaining and the lazily written `pc`.

Hypotheses of the refinement, each a named predicate that speaks of the
reference run (`GoodRun`, `RoomThroughout`):

- a block is closed by an exit instruction (`Complete`) and names only
  implemented CSRs (`CsrsOk`) in memory as it is when the block is entered;
- its instructions are still there when the run gets to them (`Unmodified`);
- an address that is entered again still holds the block it held before
  (`SameCode`); code that is not entered again may change freely, and code may
  be mapped or written at any time before it is entered;
- the instruction buffer has room for each block when it is translated.
  `RoomForManyBlocks` discharges this for every run that enters at most 65536
  different addresses.

`Witness.HypothesesCanBeMet` and `Witness.CodeMayArriveLater` give programs that
meet all of them for runs of any length. Each of the first three is shown to be
needed. `FaithfulExactlyWhenComplete` proves that a block reproduces the
reference if and only if it was not closed by the `TRANS_MAX` cap, and
`CappedBlockStalls` that the emulator re-enters such a block for ever, on every
program (`NopSledStalls` is one). `FailingCsrIsSeenExactly` proves that a failing
CSR access is missed if and only if an ecall closes its block.
`StableCodeIsNeeded`, `SameCodeIsNeeded` and `ImplementedCsrsAreNeeded` give
programs that the emulator runs differently without the hypothesis they are
named for.

The invariants of the tables, links and slots need none of them, and neither do
the even addresses (`Engine.RunProgram`) and register x0: x0 is zero in every
run, and `AssertFailsExactly` and `X0StaysZero` say exactly which instructions
make the assertion on it end the run.

**Arithmetic.** `extract32`, `sextract32` and `deposit32` are written with the
masks and shifts of the source over recursively defined bit operations, then
given their meaning for all fields. On top of them every immediate decoder is
proved to undo an encoder written from the format drawings of the RISC-V
Unprivileged ISA, document version 20191213, sections 2.3 and 16.3 to 16.5, and
`Instructions` and `ShortInstructions` carry this through the opcode switches:
each encoded instruction decodes to its handler and operands, and `Legality`
shows that every other word is an illegal instruction.
The double-width multiplications are proved exact for words of any even width.

**The instructions.** What the handlers do is pinned separately, and without
their own functions. `AluLaws` gives every arithmetic operation a law
(congruences, scalings, comparison by the exact difference, bit by bit, quotient
and remainder) and the exact operands on which the host traps. `Executed` starts
from the encoded word and states, in terms of the machine before, which
registers, `pc` and memory bytes are different after it has been decoded and
executed: where each branch goes, what is linked, which bytes are loaded and how
they are extended, what a store leaves, what AMOs, CSR accesses and ecalls do.
`Expansion` shows that each compressed instruction is the long one it
abbreviates. The laws are those of the code, which differ from the ISA where
"Left out" says so.

**The process image.** `ElfLoader.Loader` has the two header loops, `zero_bss`,
the mmap layer, the heap and the stack mapping as methods over a byte-by-byte
map of memory with protections; `Stack.Builder` has the loops of
`create_elf_tables`. `ElfLoader.ElfLoad` joins them. Loading of a well-formed
program is characterised exactly: it succeeds if and only if its range can be
reserved and every segment is readable and is writable where `memset` must clear
part of a page. `LoadedBytes` says it in numbers: for p_flags with given bits PF_R,
PF_W and PF_X, which file byte and which permissions each address gets, which
segment ends a failing load and how, and where heap, guard page and stack are.
The stack is then placed without regard to the program;
`ProcessIsLoaded` says exactly when a segment or the heap survives that, and
`StackDestroysProgram` gives one that does not.

Words are unbounded integers reduced modulo 2^64 wherever the source's type
wraps. A host signal, a failed `assert` and the two ways of exiting are
explicit outcomes (`Machine.Halt`).

## Model

| member | source | states |
|---|---|---|
| BitFields.ExtractMeaning | include/rvvk.h:117-121 | extract32 is the bits start..start+length of the value, for every field that meets the assertion |
| BitFields.DepositMeaning | include/rvvk.h:132-139 | deposit32 is the value with exactly those bits replaced by the low bits of the field value |
| BitFields.ExtractAfterDeposit | include/rvvk.h:117-139 | reading a deposited field back gives the field value modulo 2^length |
| BitFields.DepositKeepsOutside | include/rvvk.h:117-139 | every field disjoint from the deposited one reads as before |
| BitFields.DepositsCommute | include/rvvk.h:132-139 | deposits to disjoint fields commute |
| BitFields.SextractMeaning | include/rvvk.h:123-130 | sextract32 is the two's-complement value of the field extract32 reads |
| WideMul.Wmulu | arch/riscv/cpu.c:324-334 | hi and lo are words and hi * 2^W + lo is the exact product, for every even width W: no carry is lost |
| WideMul.Wmul | arch/riscv/cpu.c:336-345 | the same for signed operands, with hi the signed high word |
| WideMul.Wmulsu | arch/riscv/cpu.c:347-353 | the same for a signed and an unsigned operand |
| Immediates.DecodeEncodeI | arch/riscv/translate.c:628-633 | decoding the I format returns every 12-bit signed immediate, with rd and rs1, whatever the other fields |
| Immediates.DecodeEncodeS | arch/riscv/translate.c:635-640 | the same for the S format, with rs1 and rs2 |
| Immediates.DecodeEncodeB | arch/riscv/translate.c:642-647 | the same for the B format and every even 13-bit offset |
| Immediates.DecodeEncodeU | arch/riscv/translate.c:649-653 | the same for the U format and every multiple of 4096 |
| Immediates.DecodeEncodeJ | arch/riscv/translate.c:655-659 | the same for the J format and every even 21-bit offset |
| Immediates.DecodeEncodeCJ | arch/riscv/translate.c:146-150 | the same for C.J and every even 12-bit offset |
| Immediates.DecodeEncodeCBeqz | arch/riscv/translate.c:152-157 | the same for C.BEQZ and C.BNEZ and every even 9-bit offset |
| Immediates.DecodeEncodeCAddi16sp | arch/riscv/translate.c:106-111 | the same for C.ADDI16SP and every multiple of 16 |
| Immediates.DecodeEncodeCLui | arch/riscv/translate.c:113-117 | the same for C.LUI |
| Immediates.DecodeEncodeCAddi | arch/riscv/translate.c:83-104 | the same for C.ADDI, C.ADDIW and C.LI |
| Immediates.DecodeEncodeCShift | arch/riscv/translate.c:119-125 | the same for the shift amounts of C.SRLI, C.SRAI and C.SLLI |
| Immediates.DecodeEncodeCAddi4spn | arch/riscv/translate.c:48-53 | the same for C.ADDI4SPN |
| Immediates.DecodeEncodeCLw | arch/riscv/translate.c:55-67 | the same for C.LW and C.SW |
| Immediates.DecodeEncodeCLd | arch/riscv/translate.c:69-81 | the same for C.LD and C.SD |
| Immediates.DecodeEncodeCLwsp | arch/riscv/translate.c:181-186 | the same for C.LWSP |
| Immediates.DecodeEncodeCLdsp | arch/riscv/translate.c:167-172 | the same for C.LDSP |
| Immediates.DecodeEncodeCSwsp | arch/riscv/translate.c:209-214 | the same for C.SWSP |
| Immediates.DecodeEncodeCSdsp | arch/riscv/translate.c:216-221 | the same for C.SDSP |
| DecodeFacts.DecodeSound | arch/riscv/translate.c:225-1424 | for every address and word: exactly jumps, branches, ecall and illegal end a block; they and auipc carry their own address and CSR instructions none; the recorded successors are the reachable ones at even offsets; arithmetic and loads never have destination x0 |
| Masks.MaskedField | arch/riscv/translate.c:11-21 | masking with l ones from bit s selects that field, for every field |
| Masks.ShortMask | arch/riscv/translate.c:491-619 | the mask of the 16-bit switch selects the quadrant and funct3 |
| Immediates.DecodeEncodeR | arch/riscv/translate.c:621-626 | every field of the R format is read back |
| Immediates.DecodeEncodeCR | arch/riscv/translate.c:160-207 | every field of the compressed register format is read back |
| Instructions.LoadDecodes | arch/riscv/translate.c:1008-1032 | each encoded load, with any operands at any address, becomes the load of its width and signedness, or nothing when rd is x0 |
| Instructions.AluImmDecodes | arch/riscv/translate.c:1046-1084 | the same for addi, slti, sltiu, xori, ori and andi |
| Instructions.ShiftDecodes | arch/riscv/translate.c:1046-1084 | the same for slli, srli and srai |
| Instructions.AddiwDecodes | arch/riscv/translate.c:1088-1111 | the same for addiw |
| Instructions.ShiftWDecodes | arch/riscv/translate.c:1088-1111 | the same for slliw, srliw and sraiw |
| Instructions.StoreDecodes | arch/riscv/translate.c:1112-1127 | each encoded store becomes the store of its width with its offset |
| Instructions.AtomicDecodes | arch/riscv/translate.c:1128-1213 | each encoded sc and AMO, whatever aq and rl, becomes its operation on its width |
| Instructions.LoadReservedDecodes | arch/riscv/translate.c:1128-1213 | the same for lr |
| Instructions.RegisterDecodes | arch/riscv/translate.c:1214-1303 | funct7 and funct3 select the register operation, those of the M extension included |
| Instructions.RegisterWDecodes | arch/riscv/translate.c:1307-1364 | the same for the 32-bit operations |
| Instructions.UpperDecodes | arch/riscv/translate.c:813-824 | lui and auipc with any upper immediate |
| Instructions.BranchDecodes | arch/riscv/translate.c:1365-1386 | each encoded branch tests its condition, ends the block and records target and fall-through |
| Instructions.JalDecodes | arch/riscv/translate.c:826-834 | jal ends the block and records its target |
| Instructions.JalrDecodes | arch/riscv/translate.c:836-842 | jalr ends the block and records nothing |
| Instructions.CsrDecodes | arch/riscv/translate.c:1397-1421 | each encoded CSR instruction names its CSR and operation |
| Instructions.EcallDecodes | arch/riscv/translate.c:1397-1401 | every word of the system opcode with funct3 0 is an ecall |
| Instructions.FenceDecodes | arch/riscv/translate.c:849-857 | fence and fence.i do nothing |
| Legality.LongIllegalExactly | arch/riscv/translate.c:1005-1424 | a 32-bit word is illegal if and only if its opcode, funct3, funct7 and rs2 are those of no encoding above |
| Legality.EveryWordHasFields | arch/riscv/translate.c:621-626 | every word is the encoding of its own fields, so the legal words are exactly the encodings |
| ShortInstructions.CAddi4spnDecodes | arch/riscv/translate.c:225-229 | c.addi4spn, illegal exactly when its immediate is zero |
| ShortInstructions.CLwDecodes | arch/riscv/translate.c:231-235 | c.lw with any operands, whatever follows it in memory |
| ShortInstructions.CLdDecodes | arch/riscv/translate.c:237-241 | c.ld |
| ShortInstructions.CSwDecodes | arch/riscv/translate.c:243-247 | c.sw |
| ShortInstructions.CSdDecodes | arch/riscv/translate.c:249-253 | c.sd |
| ShortInstructions.CAddiDecodes | arch/riscv/translate.c:255-264 | c.addi, and c.nop when rd is x0 |
| ShortInstructions.CAddiwDecodes | arch/riscv/translate.c:277-285 | c.addiw, illegal when rd is x0 |
| ShortInstructions.CLiDecodes | arch/riscv/translate.c:288-296 | c.li, illegal when rd is x0 |
| ShortInstructions.CAddi16spDecodes | arch/riscv/translate.c:298-302 | c.addi16sp |
| ShortInstructions.CLuiDecodes | arch/riscv/translate.c:304-312 | c.lui, illegal when rd is x0 or the immediate is zero |
| ShortInstructions.CShiftRightDecodes | arch/riscv/translate.c:538-545 | c.srli and c.srai |
| ShortInstructions.CAndiDecodes | arch/riscv/translate.c:546-548 | c.andi |
| ShortInstructions.CRegisterDecodes | arch/riscv/translate.c:549-570 | c.sub, c.xor, c.or, c.and, c.subw and c.addw |
| ShortInstructions.CJDecodes | arch/riscv/translate.c:368-376 | c.j ends the block and records its target |
| ShortInstructions.CBeqzDecodes | arch/riscv/translate.c:378-387 | c.beqz records target and fall-through two bytes on |
| ShortInstructions.CBnezDecodes | arch/riscv/translate.c:389-398 | c.bnez likewise |
| ShortInstructions.CSlliDecodes | arch/riscv/translate.c:432-440 | c.slli, illegal when rd is x0 |
| ShortInstructions.CLwspDecodes | arch/riscv/translate.c:442-450 | c.lwsp, illegal when rd is x0 |
| ShortInstructions.CLdspDecodes | arch/riscv/translate.c:422-430 | c.ldsp, illegal when rd is x0 |
| ShortInstructions.CSwspDecodes | arch/riscv/translate.c:479-483 | c.swsp |
| ShortInstructions.CSdspDecodes | arch/riscv/translate.c:485-489 | c.sdsp |
| ShortInstructions.CMoveDecodes | arch/riscv/translate.c:573-594 | c.jr, c.mv, c.ebreak, c.jalr and c.add by bit 12 and the two registers, illegal where the code says so |
| Legality.ShortIllegalExactly | arch/riscv/translate.c:493-619 | a 16-bit word is illegal if and only if it is no compressed encoding or one that the code refuses |
| Expansion.LoadsAndStores | arch/riscv/translate.c:231-253 | c.lw, c.ld, c.sw and c.sd decode to the very instruction that lw, ld, sw and sd with the same operands decode to |
| Expansion.StackLoads | arch/riscv/translate.c:422-450 | c.lwsp and c.ldsp are lw and ld by x2 |
| Expansion.StackStores | arch/riscv/translate.c:479-489 | c.swsp and c.sdsp are sw and sd by x2 |
| Expansion.SmallImmediates | arch/riscv/translate.c:255-330 | c.addi, c.addiw, c.li and c.andi are addi, addiw, addi from x0 and andi |
| Expansion.StackAddresses | arch/riscv/translate.c:225-302 | c.addi16sp and c.addi4spn are addi from x2 |
| Expansion.UpperImmediate | arch/riscv/translate.c:304-312 | c.lui is lui |
| Expansion.LogicalShifts | arch/riscv/translate.c:314-440 | c.slli and c.srli are slli and srli |
| Expansion.ArithmeticShift | arch/riscv/translate.c:320-324 | c.srai, executed, shifts its register right by its amount, keeping the sign |
| Expansion.Registers | arch/riscv/translate.c:332-366 | c.sub, c.xor, c.or, c.and, c.subw and c.addw are the operations they abbreviate |
| Expansion.MoveAndAdd | arch/riscv/translate.c:412-477 | c.mv and c.add likewise, c.mv as addi with 0 |
| Machine.StraightIgnoresPc | arch/riscv/cpu.c:33-705 | a straight-line handler leaves pc and exception alone and its effect does not depend on pc |
| Machine.ExitOverwritesPc | arch/riscv/cpu.c:19-166 | a block-ending handler sets pc without having read it |
| Machine.RaisesOrKeeps | arch/riscv/cpu.c:19-30 | whether a handler raises an exception is a property of the instruction alone; a failing CSR access raises and sets pc to insn->pc |
| HandlerFacts.StoreKeepsOthers | mmap.c:135-153 | a store maps nothing and changes only the bytes it covers, wrap-around included |
| HandlerFacts.LoadAfterStore | mmap.c:114-153 | a load of the bytes just stored returns the value truncated to their number |
| HandlerFacts.StoreNeedsTheSameBytes | mmap.c:114-153 | a store faults exactly where a load of the same bytes does |
| HandlerFacts.SignedLoadRange | arch/riscv/cpu.c:168-181 | a signed load gives the representative of the loaded bytes in the signed range |
| HandlerFacts.ProductHalves | arch/riscv/cpu.c:355-365 | mul and mulh together hold the exact signed product |
| HandlerFacts.UnsignedProductHalves | arch/riscv/cpu.c:374-378 | mulhu and mul together hold the exact unsigned product |
| HandlerFacts.SignedDivision | arch/riscv/cpu.c:380-393 | div and rem trap exactly on a zero divisor and on overflow, and otherwise are C's quotient and remainder |
| HandlerFacts.UnsignedDivision | arch/riscv/cpu.c:385-398 | divu and remu trap exactly on a zero divisor, and otherwise are quotient and remainder |
| HandlerFacts.BitwiseBits | arch/riscv/cpu.c:101-126 | and, or and xor act on every bit by itself |
| HandlerFacts.ShiftsScale | arch/riscv/cpu.c:85-116 | sll multiplies by a power of two modulo 2^64; srl and sra divide by it, rounding down, unsigned and signed |
| HandlerFacts.WordOps | arch/riscv/cpu.c:295-303 | addw, subw and mulw give the 32-bit signed number congruent to the full result |
| HandlerFacts.BranchesAreComplementary | arch/riscv/cpu.c:128-166 | of a branch and its negation exactly one goes to the target and the other falls through, and nothing but pc changes; which one, Executed.BranchExecutes says |
| HandlerFacts.CsrExchanges | arch/riscv/cpu.c:527-567 | a CSR access leaves the old value in rd, sets, clears or replaces each bit as its operand says, and touches no other register, CSR or memory |
| HandlerFacts.AmoExchanges | arch/riscv/cpu.c:581-705 | an AMO faults exactly on unmapped bytes; otherwise rd holds the sign-extended old value, memory reads back the operation's result modulo 2^(8n), and nothing else changes |
| HandlerFacts.AmoPicks | arch/riscv/cpu.c:606-636 | min and max pick one of their operands in signed or unsigned order |
| AluLaws.AluMeets | arch/riscv/cpu.c:75-424 | every arithmetic operation traps on exactly the listed operands and otherwise meets its law: sums and products by congruence, high products by the exact product, shifts by scaling, comparisons by the sign of the exact difference, bitwise bit by bit, divisions by quotient and remainder, the 32-bit forms on the low halves with the extension the code gives them |
| AluLaws.SubUndoesAdd | arch/riscv/cpu.c:75-83 | subtraction undoes addition and addition subtraction |
| AluLaws.SignedIsSigned | arch/riscv/cpu.c:91-94 | the signed readings used by the laws are the two's-complement values of 64 and of the low 32 bits |
| AluLaws.AmoLaws | arch/riscv/cpu.c:581-705 | what each AMO leaves in memory: the sum modulo 2^(8n), the operand, each bit combined, or the lesser or greater of the two |
| Executed.RegisterExecutes | arch/riscv/cpu.c:75-126 | from the encoded word: each register operation writes rd alone, with a value that meets its law on rs1 and rs2 in this order, or traps |
| Executed.RegisterWExecutes | arch/riscv/cpu.c:295-424 | the same for the 32-bit operations |
| Executed.AluImmExecutes | arch/riscv/cpu.c:208-236 | the same for addi to andi, on rs1 and the sign-extended immediate |
| Executed.AddiwExecutes | arch/riscv/cpu.c:272-275 | the same for addiw |
| Executed.ShiftExecutes | arch/riscv/cpu.c:238-255 | slli, srli and srai shift by exactly the encoded amount |
| Executed.ShiftWExecutes | arch/riscv/cpu.c:277-293 | slliw, srliw and sraiw likewise |
| Executed.UpperExecutes | arch/riscv/cpu.c:33-41 | lui writes the immediate and auipc the address of the instruction plus it, to x0 as well |
| Executed.JalExecutes | arch/riscv/cpu.c:43-49 | jal goes to pc plus the offset and links pc + 4, but never to x0 |
| Executed.JalrExecutes | arch/riscv/cpu.c:51-57 | jalr goes to the even address at rs1 plus the offset, and to the link plus the offset when rd is rs1 |
| Executed.CJExecutes | arch/riscv/translate.c:368-376 | c.j goes to pc plus the offset and links nothing |
| Executed.CJumpExecutes | arch/riscv/cpu.c:67-73 | c.jr and c.jalr go to the even address in rs1; c.jalr links pc + 2 to x1 before it reads rs1 |
| Executed.BranchExecutes | arch/riscv/cpu.c:128-156 | every encoded branch goes to pc plus the offset exactly when the difference of its operands is zero, nonzero, negative or not negative, as signed or unsigned numbers, and 4 on otherwise; only pc changes |
| Executed.ExactlyOneGoes | arch/riscv/cpu.c:128-156 | of beq a b, blt a b and blt b a exactly one goes, and so with bltu |
| Executed.CBranchExecutes | arch/riscv/cpu.c:158-166 | c.beqz goes exactly on zero and c.bnez exactly on nonzero, and 2 on otherwise |
| Executed.LoadNeedsAll | mmap.c:114-133 | a load needs exactly its own bytes mapped |
| Executed.LoadedByte | mmap.c:114-133 | byte k of the loaded value is the byte at the address plus k, wrap-around included |
| Executed.LoadExecutes | arch/riscv/cpu.c:168-191 | each encoded load writes rd alone: congruent to the bytes at rs1 plus the offset, within the signed range for lb, lh, lw and ld and within the unsigned one for lbu, lhu and lwu |
| Executed.StoreExecutes | arch/riscv/cpu.c:193-206 | each encoded store leaves the low bytes of rs2 at rs1 plus the offset and everything else as it was |
| Executed.StoreThenLoad | arch/riscv/cpu.c:168-206 | a load with the base and offset of a store returns what was stored, extended by its own width and sign |
| Executed.AmoExecutes | arch/riscv/cpu.c:581-705 | each encoded AMO, whatever aq and rl: rd has the old value sign-extended, memory meets the law of the operation that funct7 names, and nothing else changes |
| Executed.LoadReservedExecutes | arch/riscv/cpu.c:570-642 | lr is a sign-extending load |
| Executed.StoreConditionalExecutes | arch/riscv/cpu.c:575-648 | sc is a store that answers 0 |
| Executed.CsrExecutes | arch/riscv/cpu.c:527-567 | each encoded CSR instruction: for ten CSR numbers rd has the old value and every bit is replaced, set or cleared by the register or by the immediate; for every other number it raises and sets pc to 0 |
| Executed.EcallExecutes | arch/riscv/cpu.c:26-31 | ecall changes pc, to its own address, and the pending exception only |
| Executed.FenceExecutes | arch/riscv/translate.c:849-857 | fence and fence.i change nothing |
| Executed.IllegalExecutes | arch/riscv/cpu.c:19-24 | an illegal word raises at its own address |
| Executed.ReferenceRuns | arch/riscv/translate.c:1431-1462 | a step of the interpreter is the run of the word at pc; the next address is 4 on when its two lowest bits are set and 2 on otherwise, unless the instruction set pc or raised |
| Executed.EcallReturns | arch/riscv/cpu.c:846-855 | an ecall in memory: the program ends, or goes on behind the ecall with the answer in x10, the kernel's memory, and every other register as before |
| Blocks.TranslationIsExact | arch/riscv/translate.c:1431-1462 | decode yields a sequence if and only if it is the straight-line decoding of guest memory: each address the previous plus insn_len, 1 to 512 instructions, an exit last and nowhere else unless the cap closed it |
| Blocks.OwnAddresses | arch/riscv/translate.c:806-842 | exits and auipc carry their own address, and a block ends exactly at an exit handler |
| Blocks.RunKeepsException | arch/riscv/cpu.c:785-790 | a block raises an exception exactly when it holds an ecall, an illegal instruction or a failing CSR access, whatever the registers |
| Blocks.LeavesAtSuccessor | arch/riscv/translate.c:786-842 | for every register state a branch leaves pc at one of the two recorded successors, a direct jump at the first, an indirect jump at an even address, and a capped block leaves pc unchanged |
| Blocks.BlockOutcome | arch/riscv/cpu.c:785-798 | after a block, no exception is pending exactly when the block is quiet, and then pc is an address it can leave at |
| Blocks.SecondSlotIsTarget | arch/riscv/cpu.c:792 | following the second slot without testing pc is right wherever that slot may be linked |
| Blocks.PatchedSecondSlotIsUsable | arch/riscv/cpu.c:800-807 | patch_block fills the second slot only of blocks for which that is sound, never of an indirect jump |
| Reference.BlockMatchesReference | arch/riscv/cpu.c:785-790 | running the handlers of a block with pc left stale equals as many single steps of the interpreter |
| Reference.FaithfulExactlyWhenComplete | arch/riscv/translate.c:1453-1457 | a block reproduces the interpreter if and only if it is closed by an exit; one closed by the cap leaves pc at its own first address |
| Reference.FailingCsrIsSeenExactly | arch/riscv/cpu.c:527-532 | for every block with a failing CSR access the interpreter ends the program, and the emulator does so too if and only if no ecall closes the block |
| Reference.PendingIsServed | arch/riscv/cpu.c:845-867 | with an ecall pending the kernel's value goes to x10, pc 4 on, the memory is the kernel's and nothing else changes; an illegal instruction and the exit call end the program |
| Reference.EcallIsServed | arch/riscv/cpu.c:846-855 | the interpreter goes on from exactly that machine |
| CacheMachine.CacheRefinesReference | arch/riscv/cpu.c:780-869 | after any number of blocks, across system calls of an arbitrary kernel, the machine equals the uncached one after exactly the sum of the block lengths, and dies when and as it does; code may come and change as long as no block is modified while it runs and no address is entered again with other code |
| CacheMachine.UnchangedCodeIsGood | arch/riscv/translate.c:854-857 | in particular programs whose code, wherever it comes from, stays once it has been entered |
| CacheMachine.CappedBlockStalls | arch/riscv/translate.c:1453-1457 | any block that the cap closed, once entered without an exception, is re-entered for ever: pc, cache and bump pointer never change again |
| CacheMachine.TranslationLimits | arch/riscv/translate.c:1431-1481 | a translation has 1 to 512 instructions, fewer than 512 only if its last is an exit, and exists exactly if the code is mapped and it ends within the 33554432 slots of the buffer |
| CacheMachine.Steps | arch/riscv/cpu.c:785-827 | n blocks are at least n instructions |
| CacheMachine.RoundedSlots | arch/riscv/translate.c:1477 | the bump is at least the count, at most one slot more, and a multiple of 64 bytes |
| CacheMachine.UsedSlots | arch/riscv/translate.c:1477 | n cached blocks take at most 512 slots each |
| CacheMachine.RoomForManyBlocks | arch/riscv/cpu.c:707-722 | a run that enters at most 65536 addresses never overruns the 1 GiB buffer |
| CacheMachine.DeadStays | arch/riscv/cpu.c:856-860 | nothing runs after the emulator has ended |
| ZeroRegister.AssertFailsExactly | arch/riscv/cpu.c:786-790 | from x0 == 0 the assertion fails after an instruction if and only if that is a lui, auipc, CSR access, lr or AMO with destination x0 that writes something other than zero |
| ZeroRegister.OnlyUnguardedWriteX0 | arch/riscv/translate.c:695-747 | every other instruction keeps x0 zero |
| ZeroRegister.BlockAbortsExactly | arch/riscv/cpu.c:785-790 | the same for a whole block: it fails if and only if the run comes to such an instruction |
| ZeroRegister.X0StaysZero | arch/riscv/cpu.c:780-869 | in every run of the emulator, from any cache, x0 is zero as long as it lives, and the assertion ends the run if and only if a block entered comes to such an instruction |
| ZeroRegister.GuardedNeverAborts | arch/riscv/translate.c:695-747 | a run that enters no block holding an unguarded instruction with destination x0 never fails the assertion |
| ZeroRegister.ReferenceKeepsX0 | arch/riscv/cpu.c:786-790 | the interpreter keeps x0 zero on programs without such instructions |
| ZeroRegister.UpperToX0 | arch/riscv/translate.c:813-824 | lui x0 aborts if and only if its immediate is nonzero, auipc x0 if and only if the address it forms is |
| ZeroRegister.CsrToX0 | arch/riscv/translate.c:859-864 | a CSR instruction with destination x0 aborts if and only if the CSR is implemented and nonzero |
| ZeroRegister.AtomicToX0 | arch/riscv/cpu.c:570-705 | lr and the AMOs with destination x0 abort if and only if the value they load is nonzero |
| Invariants.EvenReference | arch/riscv/cpu.c:51-73 | from an even entry point the interpreter's pc is even after every step |
| Invariants.PcStaysEven | arch/riscv/translate.c:1431-1461 | from an even entry point pc at block boundaries, cached addresses and recorded successors are even in every reachable state |
| Invariants.NopSledStalls | arch/riscv/translate.c:1453-1457 | wherever 1000 c.nop are in memory at 0, the emulator stays at pc 0 for ever while the interpreter has reached 1024 |
| Witness.HypothesesCanBeMet | arch/riscv/translate.c:368-376 | a two-byte jump to itself meets every hypothesis of the refinement for every number of blocks and every kernel |
| Witness.CodeMayArriveLater | arch/riscv/cpu.c:846-855 | a program whose code is mapped by a system call meets every hypothesis for every number of blocks |
| Witness.StableCodeIsNeeded | arch/riscv/translate.c:854-857 | a store over the next instruction of its own block: the block is good where it is entered, and the emulator jumps on where the interpreter meets an illegal instruction |
| Witness.SameCodeIsNeeded | arch/riscv/translate.c:854-857 | code replaced after it has run: every block is good where it is entered, and the emulator makes the old system call again where the interpreter does not |
| Witness.ImplementedCsrsAreNeeded | arch/riscv/translate.c:859-864 | an unimplemented CSR access before an ecall, with every other hypothesis met: the interpreter stops, the emulator goes on with the ecall |
| Cpu.State.constructor | arch/riscv/cpu.c:3-14 | the start state: entry point, stack pointer in x2, every other register zero |
| Cpu.State.Jal | arch/riscv/cpu.c:43-65 | link and pc after a direct jump, register 0 never linked |
| Cpu.State.Jalr | arch/riscv/cpu.c:51-73 | the same for an indirect jump, with the link written before rs1 is read |
| Cpu.State.MulHigh | arch/riscv/cpu.c:360-378 | the high-word multiplications agree with the floor quotient of the exact product, through wmulu, wmul and wmulsu |
| Cpu.State.Arith | arch/riscv/cpu.c:75-424 | arithmetic writes one register with a value that meets the law of the operation, or traps on exactly the operands the host cannot divide |
| Cpu.State.Load | arch/riscv/cpu.c:168-191 | a load writes one register with the extended value, or faults |
| Cpu.State.Store | arch/riscv/cpu.c:193-206 | a store changes the addressed bytes only, or faults |
| Cpu.State.StoreConditional | arch/riscv/cpu.c:575-579 | sc always stores and answers 0 |
| Cpu.State.Handle | arch/riscv/cpu.c:788 | the handler call has, on all of the state, the effect that Executed characterises for the encoded words |
| BlockStore.AppendToTable | arch/riscv/cpu.c:767-777 | hanging a new block at the tail of its bucket keeps all 4096 chains acyclic, in their bucket and equal to the map |
| BlockStore.OneBlockPerAddress | arch/riscv/cpu.c:736-778 | no address has two blocks anywhere in the table |
| BlockStore.AddBlock | arch/riscv/translate.c:1464-1481 | a new block keeps every earlier block, its instructions and its links, and takes slots of its own |
| BlockStore.PatchKeepsStore | arch/riscv/cpu.c:800-807 | linking a block that has just handed over keeps all links sound and redirects none |
| BlockStore.LinksFollowTheExit | arch/riscv/cpu.c:780-807 | no block ending in ecall or illegal is ever linked, and a block ending in a jump never has its second slot linked |
| BlockStore.InstructionsPersist | arch/riscv/cpu.c:757 | the instructions of a block are the same in every later state and overlap no other block |
| BlockStore.GrewTransitive | arch/riscv/cpu.c:809-830 | never losing a block, an instruction or a link carries over from steps to runs |
| Engine.Engine.FindBlock | arch/riscv/cpu.c:736-747 | returns the unique block for pc, and null exactly when there is none |
| Engine.Engine.LastOfBucket | arch/riscv/cpu.c:774 | the search for the tail ends at the last block of the chain |
| Engine.Engine.HangAtTail | arch/riscv/cpu.c:767-775 | only the tail's hash_next, or the empty table slot, changes |
| Engine.Engine.NewBlock | arch/riscv/cpu.c:749-778 | the map gains exactly one block, blank and at the bump pointer, and the table stays equal to the map |
| Engine.Engine.AddBlank | arch/riscv/cpu.c:749-778 | the fields of every other block stay, and each block is kept under its own address |
| Engine.Engine.DecodeInto | arch/riscv/translate.c:1431-1462 | the slots hold exactly the straight-line decoding, count and successors are recorded, and no lower slot changes; it fails exactly on an unmapped fetch or an overrun |
| Engine.Engine.Translate | arch/riscv/translate.c:1464-1481 | all earlier blocks keep their instructions and the bump pointer moves past the new ones |
| Engine.Engine.CreateBlock | arch/riscv/cpu.c:815-819 | new_block then translate adds the block the specification looks up and keeps the invariant |
| Engine.Engine.PatchBlock | arch/riscv/cpu.c:800-807 | sets the slot that matches, keeps the invariant and redirects no link: jmp_next[0] is linked if it has the address of the new block, and else jmp_next[1] if it has |
| Engine.Engine.RunBlock | arch/riscv/cpu.c:785-790 | the inner loop runs the block's translation, assertion included |
| Engine.Engine.LinkIsSound | arch/riscv/cpu.c:792 | a link that block_exec follows leads to the block find_block would return, with no exception pending |
| Engine.Engine.BlockExec | arch/riscv/cpu.c:780-798 | following links runs as many steps of the cache machine as blocks, at least one |
| Engine.Engine.Obtain | arch/riscv/cpu.c:815-819 | find or translate, equal to the lookup of the specification |
| Engine.Engine.Prepare | arch/riscv/cpu.c:815-824 | lookup and patching do not change what the next step does, and the previous block is linked wherever it records this address |
| Engine.Engine.CpuExec | arch/riscv/cpu.c:809-830 | runs until an exception is pending, equal to the cache machine, keeping the invariant and every block and link |
| Engine.Engine.ServeEcall | arch/riscv/cpu.c:846-855 | the kernel's value is in gpr[10], every other register as before, pc 4 further on, memory the kernel's and no exception pending; or the program ends |
| Engine.Engine.Rounds | arch/riscv/cpu.c:843-866 | for any program, kernel and number of blocks the endless loop is in the state of the cache machine, its invariant holds, and nothing it built was undone |
| Engine.Engine.CpuLoop | arch/riscv/cpu.c:832-869 | the same from any state; besides, x0 is zero as long as it runs and the assertion on it fails exactly when a block comes to write something else there |
| Engine.RunProgram | arch/riscv/cpu.c:832-869 | for any program from an even entry point, pc, every cached address and every recorded successor in the engine's blocks are even, and x0 is zero |
| Engine.Emulate | arch/riscv/cpu.c:780-869 | a fresh engine ends in the state of the uncached interpreter after the same number of instructions |
| Stack.Builder.PushStrings | elfload.c:121-139 | the strings lie in order with their zeros, ptrs holds their addresses from last to first, and nothing else changes |
| Stack.Builder.PlaceVectors | elfload.c:118-139 | both string loops: the strings in order, their addresses in ptrs with a null after each vector |
| Stack.Builder.PlaceFilename | elfload.c:141-148 | the file name below them, its address and argc in the last two entries of ptrs |
| Stack.Builder.PlaceStrings | elfload.c:118-148 | ptrs is filled to exactly its length and, reversed, is the pointer table |
| Stack.Builder.PushTable | elfload.c:159-164 | the table below the strings is ptrs in reverse |
| Stack.Builder.CreateElfTables | elfload.c:106-170 | a reader at the aligned stack pointer recovers argc, filename and argv[1..], and envp; no byte outside the stack range changes, nor the 24 bytes after the pointer table |
| Stack.ArgumentsAreRead | elfload.c:106-170 | the round trip on the final memory image |
| Stack.StringsApart | elfload.c:121-147 | every string with its zero ends before the next begins |
| Stack.OnlyBelow | elfload.c:150-166 | nothing outside [sp, p) is written, nor anything between the pointer table and the strings |
| Stack.StringsAndTable | elfload.c:157-164 | writing the pointer table disturbs no string |
| LoadedImage.BssIsZeroed | elfload.c:74-100 | zero_bss clears exactly from the bss to the end of its last page, and faults exactly when it must clear part of an unwritable page |
| LoadedImage.FilePartIsMapped | elfload.c:273-287 | the page-rounded file mapping puts byte p_offset+k at p_vaddr+k |
| LoadedImage.SegmentIsMapped | elfload.c:261-312 | one segment: file bytes, then zeros, with the permissions of its PF_ bits, and no page of another segment touched; a fault exactly where memset meets an unwritable page |
| LoadedImage.OthersUntouched | elfload.c:256-336 | the loop changes only pages of its segments |
| LoadedImage.SegmentsAreLoaded | elfload.c:256-336 | the loop succeeds if and only if every segment is readable and writable where needed, and then every segment holds its bytes despite later iterations |
| LoadedImage.BrkIsTop | elfload.c:333-335 | info->brk is the highest segment end |
| LoadedImage.TopIsMaximum | elfload.c:333-335 | the highest segment end bounds every segment and is attained |
| LoadedImage.LowestAddress | elfload.c:199-206 | loaddr is the least of the differences p_vaddr - p_offset, as computed, wrap-around included |
| LoadedImage.LoadAddrIsPage | elfload.c:199-206 | loaddr is a page, at or below every segment whose difference does not wrap |
| LoadedImage.UsuallyReservable | elfload.c:223-240 | with such a segment the reservation runs from loaddr up to the heap's end |
| LoadedImage.HighestByte | elfload.c:207-210 | hiaddr is the last byte of the highest segment |
| LoadedImage.ExtentMeetsBrk | elfload.c:199-224 | the two header loops agree on the end of the program |
| LoadedImage.RangeIsReserved | elfload.c:223-240 | the reservation succeeds if and only if it is neither empty nor the whole address space, covers exactly the pages from loaddr to the heap's end, through the top of the address space if loaddr wraps, and changes nothing else |
| LoadedImage.HeapIsMapped | elfload.c:338-349 | the heap is 32 MiB of zeros from the page above the break, and the mapping touches nothing else |
| LoadedImage.ImageIsLoaded | elfload.c:199-349 | reservation, segments and heap together: success exactly when reservable and loadable; segments in place, heap above all of them, nothing else changed |
| LoadedImage.RoundUpIsLeast | syscall.c:9-13 | short of wrapping, ROUND_UP to a page is the least page boundary not below its argument; this is the initial break |
| LoadedImage.StackIsMapped | elfload.c:356-371 | the stack lies above an inaccessible guard page at mmap_next_start, which moves past both; only their pages change |
| LoadedImage.PlacesAreApart | mmap.c:40-65 | any number of mappings without an address, whatever happens in between, get places one above the other that never overlap |
| LoadedImage.SegmentAfterStack | elfload.c:356-371 | a segment that was in place is still so after the stack is mapped if and only if each of its bytes on the stack's pages lies above the guard page and is what a fresh stack holds |
| LoadedImage.HeapAfterStack | elfload.c:356-371 | the heap is still zeros if and only if the stack is off it, or is not executable and its guard page is off it |
| LoadedImage.OffStackIsSpared | elfload.c:356-371 | a segment below or above the stack's pages is spared |
| LoadedImage.StackDestroysProgram | elfload.c:356-371 | a well-formed one-byte program at mmap_next_start loads without an error and is then overwritten |
| LoadedImage.ProcessIsLoaded | elfload.c:172-373 | loading succeeds if and only if the range is reservable and every segment loadable; each segment, and the heap, is then intact if and only if the stack spares it, wherever the program lies |
| LoadedImage.BreakIsLastRequest | syscall.c:15-19 | after any calls the break is the last request, clamped from below |
| LoadedImage.BreakStaysAboveSegments | syscall.c:9-19 | no sequence of do_brk calls moves the break into a segment |
| LoadedBytes.SegmentByte | elfload.c:261-312 | for p_flags with bits PF_R, PF_W and PF_X: byte j of a loaded segment is byte p_offset + j of the file, or zero from p_filesz on; it is readable if and only if PF_R or PF_X is set, writable if and only if PF_W is, executable if and only if PF_X is |
| LoadedBytes.LoadedByte | elfload.c:256-336 | the same for every byte of every PT_LOAD header after the loop |
| LoadedBytes.BadSegmentDecides | elfload.c:281-326 | the first segment that cannot be loaded ends the loop: by a host fault if its tail must be cleared without PF_W, and otherwise by the refusal of a segment with neither PF_R nor PF_X |
| LoadedBytes.GoodSegmentsLoad | elfload.c:256-336 | the loop succeeds if and only if there is no such segment |
| LoadedBytes.StackFlag | elfload.c:218-220 | the stack is executable if and only if the last PT_GNU_STACK header has PF_X |
| LoadedBytes.ProcessInNumbers | elfload.c:338-373 | the break is the highest segment end; 32 MiB of readable, writable, not executable zeros above it; at 0x4000000000 a page without access, the stack above it, and bprm->p 8 below its end |
| LoadedBytes.GapsAreClosed | elfload.c:226-240 | between segments nothing may be read, written or executed |
| LoadedBytes.RoundUpInNumbers | include/rvvk.h:155-160 | rounding up to pages of 4096 bytes, wrapping to 0 at the top |
| LoadedBytes.RequestedPlace | mmap.c:40-65 | a mapping asked for at an address goes to its page, and mmap_next_start stays unless it is that page |
| LoadedBytes.LastRequestDecides | syscall.c:15-19 | after any calls the break is the last request if that is not below the initial break, and the initial break if it is |
| ElfLoader.Loader.MmapFindVma | mmap.c:40-65 | the bump allocation of guest addresses |
| ElfLoader.Loader.TargetMmap | mmap.c:67-92 | fixed mappings replace what is there; others are placed and anonymous |
| ElfLoader.Loader.ZeroBssPages | elfload.c:74-100 | the code of zero_bss against its specification, faults and errors included |
| ElfLoader.Loader.LoadOneSegment | elfload.c:261-335 | the loop body against the function that SegmentIsMapped, LoadedBytes.LoadedByte and BadSegmentDecides characterise |
| ElfLoader.Loader.LoadAllSegments | elfload.c:256-336 | the segment loop against its specification, with its early exits |
| ElfLoader.Loader.FindExtent | elfload.c:199-221 | the first header loop: bounds and stack executability |
| ElfLoader.Loader.LoadElfBinary | elfload.c:172-373 | the whole function up to create_elf_tables, for every input |
| ElfLoader.Break.DoBrk | syscall.c:15-19 | the new break is the request, or the initial break if that is higher |
| ElfLoader.LoadProgram | elfload.c:172-373 | from nothing mapped, a program loads if and only if it is reservable, every segment has PF_R or PF_X, and PF_W wherever its tail must be cleared; exactly what the stack spares is intact, and break, heap and stack are where LoadedBytes puts them |
| ElfLoader.ElfLoad | elfload.c:426-449 | a loadable program starts with its arguments, its environment and a null auxiliary vector readable at its stack pointer, every segment off the stack's pages readable in memory, and the guard page below the stack not |

## Left out

- System call bodies other than do_brk (syscall.c): an arbitrary function of the call number so far, the registers and the memory. do_brk is not connected to it.
- Host functions: mmap, mprotect, pread and malloc are taken to succeed where their arguments are valid, wherever the host range lies; their effect on bytes is modelled, errno and messages are not.
- Guest memory is a map from addresses to bytes; an access to an unmapped byte ends the run. Page protections are modelled while the program is loaded and not while it runs. guest_base is page-aligned.
- Self-modifying code: `fence.i` does nothing and blocks are never invalidated (arch/riscv/translate.c:854-857), so the refinement assumes that no code is changed between two entries or while it runs.
- A failing CSR access in the middle of a block: the code sets pc to insn->pc, which is never set for CSR instructions. The model follows it with pc 0; the refinement excludes it, and FailingCsrIsSeenExactly says what happens. A buffer slot keeps no stale fields because the buffer is never reused.
- Individual CSRs: ten plain words. Floating-point CSR bits are not modelled.
- LR/SC reservations and atomicity: one hart, and sc always succeeds, as in the code.
- The ISA is not the reference. The handlers depart from it (jalr with rd equal to rs1; slliw, srliw, sllw, srlw, divuw and remuw zero-extend; division by zero and overflow trap the host; ebreak is an ecall, c.ebreak does nothing) and the model follows the code.
- The trans_ and extract functions are modelled as functions that return the filled instruction, not as updates of a record in place: the order in which fields are filled is not captured.
- translate's return value and ctx.link, which no caller uses.
- The 32-bit build, except that the multiplication is proved for every even width.
- Engine.Emulate: runs are measured in blocks; the source's loops run until the program exits, so the methods take a number of blocks after which they stop.
- ET_DYN loading, PT_INTERP, ELF header checks, and the code and data bounds of image_info, which nothing reads.
- Stack.Builder.CreateElfTables: argc of at least one and enough stack are required, because the source writes past ptrs or below the stack without them.
- ElfLoader.ElfLoad: segments that overlap the stack's pages are covered by ProcessIsLoaded up to the point where the arguments are written over them.
- DecodeFacts.DecodeSound: does not say which handler a word selects; Instructions, ShortInstructions and Legality do, for every word.
- Command line, path resolution, logging and main (util.c, main.c), and the distribution quality of fibhash.
