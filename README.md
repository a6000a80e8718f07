# A Dafny model of the ArchC RISC-V simulator core

This project models the functional core of the ArchC RISC-V simulator (RV32I
with the M extension) and proves properties of it. It covers four parts:

- **The instruction behaviours** (`riscv_isa.cpp`). The class `Isa.Hart`
  holds the register bank `RB` (an `array<bv32>` of 32 entries), the program
  counter `pc` and the data memory `mem`. It has one method per behaviour:
  the generic `instruction` epilogue, `begin`, and each modelled instruction.
  Every method states the whole new state: `Regs() == old(Regs())[rd := v]`,
  or the new pc, or the new memory, together with what stays unchanged.
- **The helpers** (`riscv_isa_helper.H`) are in `IsaHelper`:
  - `sign_extend` is a function over `bv32`;
  - the floating-point bank `RBF` is the class `FloatRegs`, whose slots hold
    raw `bv32` patterns (doubles are `bv64` patterns split over two slots);
  - `csr_map` is a function onto a three-valued datatype.
- **The syscall glue** (`riscv_syscall.cpp`) is the class
  `RiscvSyscall.Syscall`, with byte-copy loops as methods proved against the
  functions `ReadBytes`, `WriteBytes` and `WriteWords`. It also models the
  initial guest stack that `set_prog_args` lays out.
- **The debugger access** (`riscv_gdb_funcs.cpp`) is in `GdbFuncs`.

Modelling choices:

- **`ac_word` taken as signed (an assumption).** A register value is a
  32-bit pattern. The type `ac_word` is defined in ArchC's generated
  parameter header, which is not part of this model. The model assumes it is
  a signed `int`. Under that reading, the uncast `<`, `>`, `/`, `%` and `>>`
  of the behaviours act on the signed value (`Words.Signed`), and the
  `(ac_Uword)` casts act on the unsigned value (`Words.Unsigned`). Equality
  is equality of patterns.
  - The `(ac_Uword)` casts of SLTU, BLTU, BGEU and DIVU suggest the authors
    took registers as signed.
  - SRA's hand-made sign fill suggests they took `>>` as logical, which it is
    only on an unsigned `ac_word`.

  The section "The unsigned reading of `ac_word`" in `isa.dfy` gives the
  other reading and proves where the two agree and where they differ
  (`Isa.LessReadings`, `Isa.DivReadings`, `Isa.SrlReadings`,
  `Isa.SraReadings`, `Isa.SraiReadings`, `Isa.SraUnsignedLogical`). SRL and
  SRA write the same value under either reading, for every register outside
  16..31 (`Isa.SrlSraAgree`).
- **Memory.** Memory is a map from addresses to bytes. An address is an
  integer in [0, 2^32), obtained from a register with `AddrOf`. An address
  absent from the map reads as 0. Address increments wrap around modulo 2^32,
  as the C `unsigned int` counters do (`Words.Offset`).
- **Half-word and word accesses.** The byte order of `DATA_PORT`'s half-word
  and word accesses is not visible in these sources. They are the four
  function fields of `Words.DataPort`, fixed for each hart. Byte accesses act
  on the map directly.
- **Quirks kept as written.** The behaviours keep every quirk of the C code:
  - no register is hardwired to zero;
  - ADDI's NOP branch (`rd`, `rs1` and `imm` all 0) adds 4 to a pc the
    generic behaviour has already advanced by 4, so `addi x0, x0, 0` skips
    the instruction after it (`Isa.Hart.StepAddi`);
  - on the signed reading, SRL and SRLI apply `>>` to a signed `ac_word`, an
    arithmetic shift as GCC and Clang compile it;
  - SRL and SRA apply the same `>>` to the same register, so they differ
    only for the register values 16 to 31;
  - SRA's sign test `(RB[rs1] >> 4) == 1` also sets the top bits for the
    register values 16 to 31;
  - ORI adds;
  - loads and stores always set the top 20 bits of their offset;
  - stores and branches build their offset as `(imm1 << 7) | imm2`, with
    no scaling and no sign extension of their own; branches add it to the
    pc as it is. With unsigned fields, a branch can only move the pc forward
    (`Isa.ImmSBUnsignedFields`). With a 5-bit `imm2`, the shift by 7 leaves
    bits 5 and 6 of the offset zero (`Isa.ImmSBFiveBitField`);
  - JAL adds `imm & 0xFFFFFFFF`, the field unscaled, to the advanced pc;
  - JALR masks its target with `0xD` and links the new pc plus 4;
  - the division guard `(RB[rs1] == -2^(31)) && (RB[rs2] == -1)` parses as
    `((RB[rs1] == -2) ^ 31) && (RB[rs2] == -1)`. Its left operand is 30 or
    31, never 0, so the guard fires for every divisor -1, whatever the
    dividend. DIV then writes `-2^(31)`, which is (-2) XOR 31, that is -31;
    REM writes 0; DIVU and REMU leave rd unwritten.

  The "## Findings" section sets each quirk beside its evident intent.

Where the RISC-V ISA manual disagrees with the code, the model follows the
code:

- the manual hardwires register 0 to zero, and the code does not;
- the manual's NOP `addi x0, x0, 0` advances the pc by 4, and the code's
  advances it by 8;
- the manual sign-extends the store, branch and JAL offsets and scales the
  branch and JAL offsets by 2. The code scales none of them and sign-extends
  none of them itself: stores set the top 20 bits of every offset, and
  branches and JAL add the field as the decoder hands it over;
- it takes branch and JAL offsets from the branch's own address, while the
  code adds them to the pc after the epilogue has already advanced it by 4;
- it links JAL and JALR to the instruction after the jump, while the code
  links JAL to the advanced pc plus 4 and JALR to the target plus 4.

## Model

| member | source | states |
|---|---|---|
| IsaHelper.SignExtend | riscv_isa_helper.H:36-44 | sign_extend itself, with no contract of its own; SignExtendNarrow, SignExtendTwelve and SignExtendExamples state its value |
| IsaHelper.SignExtendNarrow | riscv_isa_helper.H:36-44 | for any width n in 1..31 and a word below 2^n, sign_extend gives word - 2^n (in 32 bits) when bit n-1 is set and word otherwise |
| IsaHelper.SignExtendTwelve | riscv_isa_helper.H:36-44 | a 12-bit field, sign-extended, has its two's complement value: the field minus 4096 when bit 11 is set, else the field |
| IsaHelper.SignExtendExamples | riscv_isa_helper.H:36-44 | sign_extend(0xFFF, 12) is all ones, that is -1, and sign_extend(0x7FF, 12) is 2047 |
| IsaHelper.ShiftIsProduct | riscv_isa_helper.H:48 | in 64 bits, shifting a 32-bit high half left by 32 is multiplying it by 2^32 |
| IsaHelper.HalvesJoin | riscv_isa_helper.H:46-58 | the low half plus the high half shifted back into place rebuilds any 64-bit pattern |
| IsaHelper.FloatRegs.LoadDouble | riscv_isa_helper.H:46-51 | the loaded double has RBF[2i] as its low half and RBF[2i+1] as its high half, and its value as a 64-bit unsigned integer is RBF[2i] + 2^32 * RBF[2i+1] |
| IsaHelper.FloatRegs.SaveDouble | riscv_isa_helper.H:53-58 | only slots 2i and 2i+1 change, to the low and high halves, and load_double then returns the saved pattern |
| IsaHelper.FloatRegs.LoadFloat | riscv_isa_helper.H:60-64 | load_float reads slot i as a raw pattern, with no contract of its own; SaveFloat and FloatAliasesDouble state what it returns |
| IsaHelper.FloatRegs.SaveFloat | riscv_isa_helper.H:60-68 | only slot i changes, and load_float then returns the saved pattern |
| IsaHelper.FloatRegs.FloatAliasesDouble | riscv_isa_helper.H:46-64 | single-precision slot 2i is the low half of double i and slot 2i+1 its high half |
| IsaHelper.CsrMap | riscv_isa_helper.H:74-77 | index 2 selects frm, 3 fcsr, and every other index (1 included) fflags, each in both directions |
| IsaHelper.CsrMapNumber | riscv_isa_helper.H:74-77 | csr_map of each register's own index (1, 2, 3) is that register |
| Isa.ImmIValue | riscv_isa.cpp:162-180 | the immediate of ADDI and the other I-type behaviours is sign_extend of the 12-bit field from bit 11, with a value in [-2048, 2048) |
| Isa.MemOffsetValue | riscv_isa.cpp:124-130 | the load/store offset imm or 0xFFFFF000 is always negative, in [-4096, -1], and for a 12-bit field equals the field minus 4096 |
| Isa.ImmSBFields | riscv_isa.cpp:317-324 | in (imm1 << 7) or imm2, a 7-bit imm2 is the low 7 bits and imm1 the bits above |
| Isa.ImmSBFiveBitField | riscv_isa.cpp:317-324 | with a 5-bit imm2, the width of the S and B formats' low field, imm2 is the low 5 bits and bits 5 and 6 of the offset are zero |
| Isa.ImmSBUnsignedFields | riscv_isa.cpp:340-350 | with unsigned fields of at most 7 bits the offset is below 0x4000, so a branch adding it can only move the pc forward (up to wrap-around) |
| Isa.ImmSBSignedHigh | riscv_isa.cpp:340-350 | only an imm1 sign-extended by the decoder gives a negative offset, in [-8192, 0) |
| Isa.BoolWord | riscv_isa.cpp:71-88 | the value SLT and SLTU write is 0 or 1, and 1 exactly when the comparison holds |
| Isa.SignedByte | riscv_isa.cpp:124-130 | LB's sign-extended byte has a value in [-128, 128) equal to the byte read as a signed char, and keeps the byte in its low 8 bits |
| Isa.SignedHalf | riscv_isa.cpp:132-138 | LH's sign-extended half-word has the half-word's signed short value |
| Isa.SignedHalfRange | riscv_isa.cpp:132-138 | LH's result lies in [-32768, 32768) |
| Isa.SignedHalfLow | riscv_isa.cpp:132-138 | LH's result keeps the half-word in its low 16 bits |
| Isa.UnsignedByte | riscv_isa.cpp:146-152 | LBU's zero-extended byte is below 256, equals the byte and keeps it in its low 8 bits |
| Isa.UnsignedHalf | riscv_isa.cpp:154-160 | LHU's zero-extended half-word is below 65536, equals the half-word and keeps it in its low 16 bits |
| Isa.BneNegatesBeq | riscv_isa.cpp:340-362 | BNE branches exactly when BEQ does not |
| Isa.BgeNegatesBlt | riscv_isa.cpp:364-386 | BGE's test (greater or equal, as written with the disjunction) holds exactly when BLT's does not |
| Isa.BgeuNegatesBltu | riscv_isa.cpp:388-410 | BGEU's test holds exactly when BLTU's does not |
| Isa.LessReadings | riscv_isa.cpp:71-78 | the signed and unsigned readings of SLT's, SLTI's and BLT's `<`, and of BGE's disjunction, agree exactly when both operands have the same sign bit |
| Isa.LessReadingsDiffer | riscv_isa.cpp:71-78 | 0xFFFFFFFF < 0 holds on a signed `ac_word` and fails on an unsigned one, so SLT writes 1 or 0 |
| Isa.QuotRem | riscv_isa.cpp:466-497 | C's truncating quotient and remainder: the remainder is smaller than the divisor in magnitude and has the dividend's sign, and the quotient never overshoots |
| Isa.QuotRange | riscv_isa.cpp:474 | C's truncated quotient of two ints, other than INT32_MIN / -1, is again an int |
| Isa.CaretMinusThirtyOneValue | riscv_isa.cpp:471 | the value DIV writes when its guard fires, -2^(31), is the pattern (-2) XOR 31 = 0xFFFFFFE1, whose value is -31 |
| Isa.DivGuardIgnoresDividend | riscv_isa.cpp:470 | the guard as C parses it holds exactly when the divisor is all ones (-1), for every dividend |
| Isa.MinusOneIsAllOnes | riscv_isa.cpp:470 | the guard's `RB[rs2] == -1` holds exactly for the all-ones pattern |
| Isa.DivRemOrdinary | riscv_isa.cpp:466-497 | for a divisor other than 0 and -1, DIV's quotient q and REM's remainder r satisfy divisor * q + r = dividend as signed values, abs(r) < abs(divisor), and r is 0 or has the dividend's sign |
| Isa.DivuRemuOrdinary | riscv_isa.cpp:477-508 | for a divisor other than 0 and 0xFFFFFFFF, DIVU and REMU both write rd, and their q and r satisfy divisor * q + r = dividend and r < divisor as unsigned values |
| Isa.DivisionByZero | riscv_isa.cpp:466-508 | a zero divisor makes DIV and DIVU write all ones and REM and REMU write the dividend |
| Isa.DivUnsignedReading | riscv_isa.cpp:466-475 | on an unsigned `ac_word`, DIV writes DIVU's corrected quotient for every divisor but -1, and -31 for -1 |
| Isa.RemUnsignedReading | riscv_isa.cpp:488-497 | on an unsigned `ac_word`, REM writes REMU's corrected remainder for every divisor but -1, and 0 for -1 |
| Isa.DivReadings | riscv_isa.cpp:466-497 | when the sign bits of both operands are clear, DIV and REM write the same under both readings |
| Isa.DivReadingsDiffer | riscv_isa.cpp:466-475 | DIV of -6 by 2 writes -3 on a signed `ac_word` and 0x7FFFFFFD on an unsigned one |
| Isa.JalrTarget | riscv_isa.cpp:246-252 | the JALR target has only bits 0, 2 and 3 free: every bit masked out by 0xD is zero |
| Isa.Hart.Instruction | riscv_isa.cpp:21-24 | the generic behaviour adds 4 to the pc and changes nothing else |
| Isa.Hart.Begin | riscv_isa.cpp:36-43 | every register is 0 afterwards; the pc and memory are unchanged |
| Isa.Hart.Add | riscv_isa.cpp:51-56 | rd receives the 32-bit wrapping sum, no other register changes, pc and memory unchanged |
| Isa.Hart.Sub | riscv_isa.cpp:58-63 | rd receives the wrapping difference; single-register frame |
| Isa.Hart.Sll | riscv_isa.cpp:65-69 | for a shift amount below 32, rd receives RB[rs1] shifted left; single-register frame |
| Isa.Hart.Slt | riscv_isa.cpp:71-78 | rd receives 1 when RB[rs1] < RB[rs2] as signed values, else 0; single-register frame |
| Isa.Hart.Sltu | riscv_isa.cpp:81-88 | rd receives 1 when RB[rs1] < RB[rs2] as unsigned values, else 0; single-register frame |
| Isa.Hart.Xor | riscv_isa.cpp:90-94 | rd receives the bitwise xor; single-register frame |
| Isa.Hart.Srl | riscv_isa.cpp:96-100 | for a shift amount below 32, rd receives RB[rs1] shifted right arithmetically (the signed `ac_word`'s `>>`); single-register frame |
| Isa.ShiftRightSignedTop | riscv_isa.cpp:96-100 | after an arithmetic shift by n the top n+1 bits are all copies of the sign bit: all ones for a negative register, zero otherwise |
| Isa.ShiftRightSigned | riscv_isa.cpp:96-100 | `>>` on the signed `ac_word`, the arithmetic shift, with no contract of its own; ShiftRightSignedTop and ShiftRightSignedLow state all its bits |
| Isa.ShiftRightSignedLow | riscv_isa.cpp:96-100 | below the n vacated top bits the arithmetic shift by n holds exactly the bits of the logical shift, so with ShiftRightSignedTop every bit of the result is stated |
| Isa.ShiftRightSignedComplement | riscv_isa.cpp:96-100 | for a negative register the arithmetic shift is the complement of the logical shift of the complement |
| Isa.Hart.Sra | riscv_isa.cpp:102-109 | for a shift amount below 32, rd receives the arithmetic shift, or'ed with 0xFFFFFFFF << amount when `(RB[rs1] >> 4) == 1`; single-register frame |
| Isa.SraTest | riscv_isa.cpp:104 | SRA's sign test holds exactly for the register values 16 to 31 |
| Isa.SraOrdinary | riscv_isa.cpp:102-109 | for every register value outside 16..31, SRA writes the arithmetic shift |
| Isa.SrlReadings | riscv_isa.cpp:96-100 | for a register whose sign bit is clear, SRL writes the same under both readings |
| Isa.SraReadings | riscv_isa.cpp:102-109 | for a register whose sign bit is clear, SRA writes the same under both readings |
| Isa.SraUnsignedTest | riscv_isa.cpp:104 | on an unsigned `ac_word` too, SRA's test holds exactly for the values 16 to 31 |
| Isa.SraUnsignedLogical | riscv_isa.cpp:102-109 | on an unsigned `ac_word`, SRA of a negative register is the logical shift, and so is SRAI for every field outside 32..63 |
| Isa.SrlSraAgree | riscv_isa.cpp:96-109 | for every register outside 16..31, SRA writes what SRL writes, on a signed and on an unsigned `ac_word` alike |
| Isa.Hart.Or | riscv_isa.cpp:111-115 | rd receives the bitwise or; single-register frame |
| Isa.Hart.And | riscv_isa.cpp:117-121 | rd receives the bitwise and; single-register frame |
| Isa.Hart.Lb | riscv_isa.cpp:124-130 | rd receives the sign-extended byte at RB[rs1] + (imm or 0xFFFFF000); nothing else changes |
| Isa.Hart.Lh | riscv_isa.cpp:132-138 | rd receives the sign-extended half-word the port reads at the load address; nothing else changes |
| Isa.Hart.Lw | riscv_isa.cpp:140-144 | rd receives the word the port reads at the load address; nothing else changes |
| Isa.Hart.Lbu | riscv_isa.cpp:146-152 | rd receives the zero-extended byte at the load address; nothing else changes |
| Isa.Hart.Lhu | riscv_isa.cpp:154-160 | rd receives the zero-extended half-word the port reads at the load address; nothing else changes |
| Isa.Hart.Addi | riscv_isa.cpp:162-180 | rd = rs1 = imm = 0 changes no register and adds 4 more to the pc; otherwise rd receives RB[rs1] plus the sign-extended immediate and the pc is unchanged |
| Isa.AddiSum | riscv_isa.cpp:171-176 | the sum RB[rs1] + sign_ext written by ADDI, with no contract of its own; ADDI, ORI and the corrected ADDI use it |
| Isa.Hart.StepAddi | riscv_isa.cpp:21-24 | the generic behaviour followed by ADDI: the NOP moves the pc by 8 and changes no register; every other ADDI moves it by 4 and writes rd |
| Isa.Hart.Slti | riscv_isa.cpp:183-195 | rd receives 1 when RB[rs1] is below the sign-extended immediate as signed values, else 0 |
| Isa.Hart.Sltiu | riscv_isa.cpp:198-210 | rd receives 1 when RB[rs1] is below the sign-extended immediate as unsigned values, else 0 |
| Isa.Hart.Xori | riscv_isa.cpp:213-222 | rd receives RB[rs1] xor the sign-extended immediate |
| Isa.Hart.Ori | riscv_isa.cpp:224-233 | rd receives RB[rs1] plus (not or) the sign-extended immediate |
| Isa.Hart.Andi | riscv_isa.cpp:235-244 | rd receives RB[rs1] and the sign-extended immediate |
| Isa.Hart.Jalr | riscv_isa.cpp:246-252 | the pc becomes (imm + RB[rs1]) and 0xD, and rd receives that new pc plus 4 |
| Isa.Hart.Slli | riscv_isa.cpp:255-259 | for shamt below 32, rd receives RB[rs1] shifted left by shamt |
| Isa.Hart.Srli | riscv_isa.cpp:261-265 | for shamt below 32, rd receives RB[rs1] shifted right arithmetically by shamt |
| Isa.Hart.Srai | riscv_isa.cpp:267-274 | for shamt below 32, rd receives the arithmetic shift, or'ed with 0xFFFFFFFF << shamt when `(imm >> 5) == 1` |
| Isa.SraiTest | riscv_isa.cpp:269 | SRAI's test `(imm >> 5) == 1` holds exactly for the immediate fields 32 to 63 |
| Isa.SraiOrdinary | riscv_isa.cpp:267-274 | for every immediate field outside 32..63, SRAI writes the arithmetic shift |
| Isa.SraiFieldReadings | riscv_isa.cpp:267-274 | with `imm` read as instruction bits 31:25 (0x20 for SRAI) SRAI always or's in the top mask; with `imm` read as the 12-bit field (0x400 or shamt) it writes the arithmetic shift |
| Isa.SraiSixteen | riscv_isa.cpp:267-274 | with the 7-bit field 0x20, SRAI of 16 by 1 writes 0xFFFFFFFE, where the arithmetic shift gives 8 |
| Isa.SraiReadings | riscv_isa.cpp:267-274 | for a register whose sign bit is clear, SRAI writes the same under both readings |
| Isa.Hart.Sb | riscv_isa.cpp:317-324 | only the byte at RB[rs1] + (((imm1 << 7) or imm2) or 0xFFFFF000) changes, to the low 8 bits of RB[rs2]; the pc is unchanged |
| Isa.Hart.Sh | riscv_isa.cpp:326-331 | memory becomes the port's half-word write of the low 16 bits of RB[rs2] at the store address |
| Isa.Hart.Sw | riscv_isa.cpp:333-338 | memory becomes the port's word write of RB[rs2] at the store address |
| Isa.Hart.Beq | riscv_isa.cpp:340-350 | the pc gains (imm1 << 7) or imm2 when RB[rs1] == RB[rs2] and is otherwise unchanged; memory unchanged |
| Isa.Hart.Bne | riscv_isa.cpp:352-362 | the pc gains the offset when the registers differ and is otherwise unchanged |
| Isa.Hart.Blt | riscv_isa.cpp:364-374 | the pc gains the offset when RB[rs1] < RB[rs2] as signed values |
| Isa.Hart.Bge | riscv_isa.cpp:376-386 | the pc gains the offset when RB[rs1] > RB[rs2] as signed values or the two are equal |
| Isa.Hart.Bltu | riscv_isa.cpp:388-398 | the pc gains the offset when RB[rs1] < RB[rs2] as unsigned values |
| Isa.Hart.Bgeu | riscv_isa.cpp:400-410 | the pc gains the offset when RB[rs1] > RB[rs2] as unsigned values or the two are equal |
| Isa.Hart.Lui | riscv_isa.cpp:412-416 | rd receives imm << 12; single-register frame |
| Isa.Hart.Auipc | riscv_isa.cpp:418-424 | rd receives the pc plus imm << 12; single-register frame |
| Isa.Hart.Jal | riscv_isa.cpp:426-431 | rd receives the pc plus 4 and the pc then gains imm (`imm & 0xFFFFFFFF`), unscaled |
| Isa.Hart.Mul | riscv_isa.cpp:433-437 | rd receives the low 32 bits of the product |
| Isa.Hart.Div | riscv_isa.cpp:466-475 | for every pair of registers, rd receives all ones for a zero divisor, -31 for every divisor -1, and otherwise the truncated signed quotient |
| Isa.Hart.Divu | riscv_isa.cpp:477-486 | rd receives all ones for a zero divisor, is left untouched for the divisor 0xFFFFFFFF, and otherwise receives the quotient of the `ac_Uword` values |
| Isa.Hart.RemOp | riscv_isa.cpp:488-497 | for every pair of registers, rd receives the dividend for a zero divisor, 0 for every divisor -1, and otherwise the truncated signed remainder |
| Isa.Hart.Remu | riscv_isa.cpp:499-508 | rd receives the dividend for a zero divisor, is left untouched for the divisor 0xFFFFFFFF, and otherwise receives the remainder of the `ac_Uword` values |
| Isa.OriAdds | riscv_isa.cpp:224-233 | ORI of 1 with 1 writes 2, where the bitwise or is 1 |
| Isa.OriCorrected | riscv_isa.cpp:224-233 | the bitwise or keeps every bit of RB[rs1], and outside those bits it holds exactly the sign-extended immediate's bits, so no bit is set that neither operand has |
| Isa.MemOffsetForcesNegative | riscv_isa.cpp:124-130 | with imm = 0 a load or store reaches 4096 bytes below RB[rs1], where the sign-extended field is 0 |
| Isa.JalrMasksTarget | riscv_isa.cpp:246-252 | JALR with RB[rs1] = 0x1000 and imm = 0 jumps to 0, where clearing bit 0 gives 0x1000 |
| Isa.JalrCorrected | riscv_isa.cpp:246-252 | the corrected target always has bit 0 clear and is RB[rs1] + sign-extended imm or one below it |
| Isa.JalrCorrectedKeepsEven | riscv_isa.cpp:246-252 | the corrected target equals RB[rs1] + imm whenever that sum is already even |
| Isa.SraSixteen | riscv_isa.cpp:102-109 | SRA of 16 by 1 writes 0xFFFFFFFE (-2), where the arithmetic shift gives 8 |
| Isa.SrlShiftsArithmetically | riscv_isa.cpp:96-100 | SRL of 0x80000000 by 1 writes 0xC0000000, where the logical shift gives 0x40000000 |
| Isa.SrlCorrected | riscv_isa.cpp:96-100 | the logical shift by n leaves the n vacated top bits zero and puts the old sign bit just below them |
| Isa.SrlCorrectedLow | riscv_isa.cpp:96-100 | below the n vacated bits the logical shift holds exactly the bits of RB[rs1] shifted down |
| Isa.SrlSraAtSignBit | riscv_isa.cpp:96-109 | SRL and SRA of 0x80000000 by 1 both write 0xC0000000 on a signed `ac_word`, and both 0x40000000 on an unsigned one |
| Isa.CorrectedShiftsDiffer | riscv_isa.cpp:96-109 | the logical SRL and the arithmetic SRA differ on every negative value shifted by 1 to 31: the first clears the top bit and the second keeps it |
| Isa.Hart.AddiCorrected | riscv_isa.cpp:162-180 | ADDI without the NOP branch: every encoding writes RB[rs1] plus the immediate into rd, and the pc is left alone |
| Isa.Hart.StepAddiCorrected | riscv_isa.cpp:21-24 | the generic behaviour followed by the corrected ADDI moves the pc by 4 for every ADDI, and the NOP changes no register |
| Isa.NopKeepsRegs | riscv_isa.cpp:162-180 | writing x0 + 0 back into x0 leaves the register file as it was, so the NOP needs no branch of its own |
| Isa.DivGuardFires | riscv_isa.cpp:466-497 | for every dividend, DIV by -1 writes 0xFFFFFFE1 (-31) and REM by -1 writes 0 |
| Isa.DivFiveByMinusOne | riscv_isa.cpp:466-475 | DIV of 5 by -1 writes -31, where the corrected DIV writes -5 |
| Isa.DivCorrected | riscv_isa.cpp:466-475 | the corrected DIV agrees with the C code's DIV for every divisor other than -1 |
| Isa.RemCorrected | riscv_isa.cpp:488-497 | the corrected REM agrees with the C code's REM for every divisor other than -1 |
| Isa.DivRemCorrected | riscv_isa.cpp:466-497 | for every nonzero divisor outside INT32_MIN / -1, divisor * q + r = dividend as signed values; for every nonzero divisor abs(r) < abs(divisor); r is always 0 or has the dividend's sign; INT32_MIN / -1 gives the dividend and remainder 0 |
| Isa.DivRemCorrectedExact | riscv_isa.cpp:466-497 | away from a zero divisor and INT32_MIN / -1, the corrected DIV and REM satisfy the division identity, the magnitude bound and the sign rule |
| Isa.DivuGuardLeavesRd | riscv_isa.cpp:477-508 | for every dividend, DIVU and REMU by 0xFFFFFFFF leave rd unwritten |
| Isa.DivuRemuCorrectedWrite | riscv_isa.cpp:477-508 | the corrected DIVU and REMU of 0xFFFFFFFF by itself write quotient 1 and remainder 0 |
| Isa.DivuCorrected | riscv_isa.cpp:477-486 | the corrected DIVU agrees with DIVU everywhere DIVU writes rd |
| Isa.RemuCorrected | riscv_isa.cpp:499-508 | the corrected REMU agrees with REMU everywhere REMU writes rd |
| Isa.DivuRemuCorrected | riscv_isa.cpp:477-508 | for every nonzero divisor the corrected DIVU and REMU satisfy divisor * q + r = dividend and r < divisor as unsigned values |
| GdbFuncs.NRegs | riscv_gdb_funcs.cpp:17 | the constant 33, with no contract of its own; RegRead and RegWrite state that exactly the indices below it read a value |
| GdbFuncs.RegRead | riscv_gdb_funcs.cpp:17-24 | reg_read has a value exactly for the nRegs() = 33 indices 0..32 |
| GdbFuncs.RegReadView | riscv_gdb_funcs.cpp:19-24 | indices 0..31 read RB and index 32 reads the pc |
| GdbFuncs.RegWrite | riscv_gdb_funcs.cpp:26-31 | an index in 0..31 changes only that register, 32 changes only the pc, any other index changes nothing, and reg_read then returns the value for indices 0..32 |
| GdbFuncs.MemRead | riscv_gdb_funcs.cpp:33-35 | the byte at the address, with no contract of its own; MemWrite and MemWriteThenRead state what it returns after a write |
| GdbFuncs.MemWrite | riscv_gdb_funcs.cpp:33-39 | mem_write changes only the byte at the address; mem_read then returns the byte there and the old contents at every other address |
| GdbFuncs.MemWriteThenRead | riscv_gdb_funcs.cpp:33-39 | after a byte write, reading any address gives the byte written there and the old contents elsewhere |
| RiscvSyscall.ReadBytesContents | riscv_syscall.cpp:11-24 | the bytes read from base are size many, and byte k is the memory byte k past base with wrap-around |
| RiscvSyscall.ReadBytesFrame | riscv_syscall.cpp:11-17 | a buffer read depends on the size bytes from its start address and on no other |
| RiscvSyscall.WriteBytesContents | riscv_syscall.cpp:26-40 | after a buffer write, the address d past base holds byte d of the buffer for d < size, and every other address keeps its contents |
| RiscvSyscall.WriteThenReadBytes | riscv_syscall.cpp:19-40 | host2guestmemcpy followed by guest2hostmemcpy of the same range returns the bytes written |
| RiscvSyscall.StartOffsetMonotone | riscv_syscall.cpp:86-95 | the string-table offset j never decreases from one argument to the next |
| RiscvSyscall.FitsPerArgument | riscv_syscall.cpp:86-95 | the strings overflow the 512-byte table exactly when the per-argument test j + len > 512 fires for some argument |
| RiscvSyscall.ArgStringsLength | riscv_syscall.cpp:86-95 | the strings copied so far fill exactly the first j bytes of the table |
| RiscvSyscall.ArgStringsContents | riscv_syscall.cpp:86-95 | argument i sits in the table at its offset, followed by its NUL |
| RiscvSyscall.ArgImage | riscv_syscall.cpp:106-107 | the string table copied to the guest is 512 bytes long |
| RiscvSyscall.PointersContents | riscv_syscall.cpp:86-88 | the i-th argv pointer is strtable plus argument i's offset |
| RiscvSyscall.StackLayout | riscv_syscall.cpp:80-104 | the guest stack has argc + 6 words: argc, the argc pointers, then 0, 0, 6, 4096, 0 |
| RiscvSyscall.StackImageSize | riscv_syscall.cpp:80-110 | the guest stack is exactly the words set_buffer_noinvert writes for guest_stack_size * 4 bytes |
| RiscvSyscall.Syscall.GetBuffer | riscv_syscall.cpp:11-17 | the buffer is the size bytes of memory from RB[4+argn] upwards |
| RiscvSyscall.Syscall.GuestToHost | riscv_syscall.cpp:19-24 | the buffer is the size bytes of memory from src upwards |
| RiscvSyscall.Syscall.SetBuffer | riscv_syscall.cpp:26-33 | memory becomes the old memory with the first size bytes of buf written from RB[4+argn] upwards; the pc is unchanged |
| RiscvSyscall.Syscall.HostToGuest | riscv_syscall.cpp:35-40 | memory becomes the old memory with the first size bytes of src written from dst upwards |
| RiscvSyscall.Syscall.SetBufferNoinvert | riscv_syscall.cpp:42-50 | for a size up to 0xFFFFFFFC, memory becomes the port's word writes of the first ceil(size/4) buffer words at RB[4+argn], RB[4+argn]+4, and so on |
| RiscvSyscall.Syscall.GetInt | riscv_syscall.cpp:52-55 | get_int reads register 4 + argn, with no contract of its own; SetInt states that it reads back what set_int(argn + 2) wrote |
| RiscvSyscall.Syscall.SetInt | riscv_syscall.cpp:52-60 | only RB[2+argn] changes, to the value, which get_int(argn-2) then reads |
| RiscvSyscall.Syscall.ReturnFromSyscall | riscv_syscall.cpp:62-66 | the pc becomes RB[1] and no register or memory byte changes |
| RiscvSyscall.Syscall.SetPc | riscv_syscall.cpp:121-123 | the pc becomes the value |
| RiscvSyscall.Syscall.GetReturn | riscv_syscall.cpp:130-133 | get_return reads register 1, with no contract of its own; SetReturn states that it reads back the value set |
| RiscvSyscall.Syscall.SetReturn | riscv_syscall.cpp:125-133 | only RB[1] changes, and get_return then yields the value |
| RiscvSyscall.Syscall.SetProgArgs | riscv_syscall.cpp:68-119 | fails, changing nothing, exactly when the strings exceed 512 bytes; otherwise writes the string table at strtable = ramEnd - 512 - 64K * procNumber and the guest stack at sp = strtable - 4*(argc+6), sets RB[29] to sp, RB[4] to argc and RB[5] to sp + 4, and counts the program in procNumber |
| RiscvSyscall.Syscall.BuildArgs | riscv_syscall.cpp:80-104 | the loop succeeds exactly when the strings fit, and then yields the concatenated strings and the guest stack image |
| RiscvSyscall.Syscall.CopyOut | riscv_syscall.cpp:106-116 | memory gets the string table and then the guest stack, and only RB[4], RB[5] and RB[29] change |
| RiscvSyscall.IsMmapAnonymous | riscv_syscall.cpp:135-137 | the result is true exactly when bit 11 (0x800) of the flags is set |

## Left out

- MULH, MULHSU and MULHU (riscv_isa.cpp:439-464) are left out. Their result depends on C's promotion rules for 32-bit products.
- SCALL, SBREAK and the RDCYCLE/RDTIME/RDINSTRET family (riscv_isa.cpp:276-315) are left out. They only print or are unfinished.
- The trace output (`dbg_printf`, `printf`) is left out; it is I/O.
- `custom_isnan` and the float/double unions are left out because they are floating-point semantics. `RBF` slots are modelled as bit patterns only.
- `convert_open_flags`, the syscall number table and `get_syscall_table` are left out. They depend on host `O_*` constants or are constant data.
- The internal byte order of `DATA_PORT`'s half-word and word accesses is not visible, so those accesses stay abstract functions.
- `malloc`, `strlen`, `memcpy` and `exit` in `set_prog_args` are not modelled as calls. Each argv entry is taken as the bytes `strlen` counts, and the fatal exit is the `false` result.
- The 132.call test program is a guest benchmark, not simulator logic.
- Isa.Hart.Slt: assumes `ac_word` is signed, a type outside the modelled files. Isa.Hart.Slti, Isa.Hart.Blt, Isa.Hart.Bge, Isa.Hart.Div, Isa.Hart.RemOp, Isa.Hart.Srl, Isa.Hart.Srli, Isa.Hart.Sra and Isa.Hart.Srai share the assumption. On an unsigned `ac_word` they would compute as follows:
  - SLT, SLTI, BLT and BGE would compare unsigned, as SLTU, SLTIU, BLTU and BGEU do (`Isa.LessReadings`). SLT of 0xFFFFFFFF and 0 would write 0.
  - DIV and REM would divide unsigned (`Isa.DivUnsignedReading`, `Isa.RemUnsignedReading`). DIV of -6 by 2 would write 0x7FFFFFFD.
  - SRL and SRLI would shift logically (`Isa.SrlReadings`), and the Findings row for riscv_isa.cpp:98 would not apply.
  - SRA and SRAI would shift logically before the or (`Isa.SraUnsignedLogical`), so SRA of a negative register would not copy its sign.

  The Hart methods are stated for the signed reading only.
- Isa.ImmSBFields: the layout of `imm1` and `imm2` in the `Type_S` and `Type_SB` formats is not part of this model. The store and branch methods take both fields as 32-bit values. Isa.ImmSBFields gives the split for a 7-bit `imm2`, and Isa.ImmSBFiveBitField for the 5-bit `imm2` of the RISC-V S and B formats. Isa.ImmSBUnsignedFields and Isa.ImmSBSignedHigh cover an `imm1` left unsigned or sign-extended by the decoder.
- Isa.Hart.Srl: under the signed assumption above, models `>>` on `ac_word` as the arithmetic shift GCC and Clang generate. C leaves the shift of a negative value implementation-defined, so another compiler may differ. The same holds for Isa.Hart.Srli, Isa.Hart.Sra and Isa.Hart.Srai.
- Isa.Hart.Sll, Isa.Hart.Srl, Isa.Hart.Sra, Isa.Hart.Slli, Isa.Hart.Srli, Isa.Hart.Srai: require a shift amount below 32. C leaves larger shifts undefined.
- Isa.Hart.Srai: takes the immediate field `imm` that its sign test reads as a parameter beside `shamt`. The layout of `imm` in the `Type_I_shamt` format is not part of this model. Read as instruction bits 31:25 (0x20 for SRAI), the test fires for every SRAI (the Findings row for riscv_isa.cpp:269). Read as the 12-bit field 31:20, it never fires. Isa.SraiFieldReadings proves both readings.
- Isa.Hart.Lb: takes the `char byte` of LB as signed, as it is on the x86 hosts the simulator targets. Where `char` is unsigned, LB would zero-extend.
- Isa.Hart.Add: signed overflow of `ac_word` arithmetic is modelled as 32-bit wrap-around, though C leaves it undefined. The same holds for Isa.Hart.Sub, Isa.Hart.Addi and Isa.Hart.Mul.
- Isa.Hart.Sll: the left shift of the signed `ac_word` is modelled as a 32-bit bit shift, though C (before C++20) leaves a left shift of a negative value, or one that overflows, undefined. The same holds for Isa.Hart.Slli and for the `imm << 12` of Isa.Hart.Lui and Isa.Hart.Auipc.
- IsaHelper.SignExtend: the signed-value form is proved for width 12, the width the instructions use. For other widths it is proved in its 32-bit form (SignExtendNarrow).
- GdbFuncs.RegRead: returns None for an index outside 0..32. The C function falls off its end there and returns no defined value.
- RiscvSyscall.Syscall.SetProgArgs: requires 4*(argc+6) < 2^32. Above that the C `uint32_t` size computations wrap and `malloc` gets a truncated size.
- RiscvSyscall.Syscall.SetBufferNoinvert: requires size <= 0xFFFFFFFC. For a larger size the C `unsigned int` counter, stepped by 4, wraps back below size and the loop never ends; set_prog_args never passes such a size.
- RiscvSyscall.Syscall.SetBufferNoinvert: takes the host buffer already grouped into 32-bit words. The reinterpretation of host bytes as `unsigned int`, and the read past the end for a size that is not a multiple of 4, depend on host byte order.
- `procNumber` is a field of the syscall object rather than a process-wide global.

## Findings

| source | as written | input that shows it | evidently intended | confidence | as-written member | corrected member |
|---|---|---|---|---|---|---|
| riscv_isa.cpp:231 | ORI writes RB[rs1] + sign_ext | RB[rs1] = 1, imm = 1 writes 2 | bitwise or, writing 1 | not executed | Isa.OriAdds | Isa.OriCorrected |
| riscv_isa.cpp:128 | loads and stores add imm or 0xFFFFF000, always negative | imm = 0 accesses RB[rs1] - 4096 | the 12-bit offset sign-extended from bit 11, so imm = 0 accesses RB[rs1] | not executed | Isa.MemOffsetForcesNegative | Isa.ImmIValue |
| riscv_isa.cpp:249 | JALR masks the target with 0xD | RB[rs1] = 0x1000, imm = 0 jumps to 0 | clear bit 0 only, jumping to 0x1000 | not executed | Isa.JalrMasksTarget | Isa.JalrCorrected |
| riscv_isa.cpp:470 | the guard `(RB[rs1] == -2^(31)) && (RB[rs2] == -1)` parses as `((RB[rs1] == -2) ^ 31) && ...`, which holds for every divisor -1, and DIV then writes `-2^(31)` = -31 | DIV of 5 by -1 writes -31 | guard only INT32_MIN / -1, so 5 / -1 writes -5 | not executed | Isa.DivFiveByMinusOne | Isa.DivCorrected |
| riscv_isa.cpp:481 | the same guard in DIVU and REMU (also at 503) only prints, leaving rd unwritten for every divisor 0xFFFFFFFF | DIVU of 0xFFFFFFFF by 0xFFFFFFFF leaves rd | no unsigned guard at all, writing quotient 1 and remainder 0 | not executed | Isa.DivuGuardLeavesRd | Isa.DivuCorrected |
| riscv_isa.cpp:98 | SRL (and SRLI at 263) applies `>>` to the signed `ac_word`, an arithmetic shift | SRL of 0x80000000 by 1 writes 0xC0000000 | a logical shift, writing 0x40000000 | not executed; holds only if `ac_word` is signed | Isa.SrlShiftsArithmetically | Isa.SrlCorrected |
| riscv_isa.cpp:96-109 | SRL and SRA apply the same `>>` to the same register, so they agree on every value outside 16..31, whichever way `ac_word` is signed | SRL and SRA of 0x80000000 by 1 write the same value, 0xC0000000 or 0x40000000 | SRL writes 0x40000000 and SRA 0xC0000000 | not executed | Isa.SrlSraAgree | Isa.SrlCorrected |
| riscv_isa.cpp:164-166 | ADDI's NOP branch adds 4 to a pc the generic behaviour (line 23) has already advanced by 4 | `addi x0, x0, 0` moves the pc by 8, skipping the next instruction | the NOP moves the pc by 4 and changes nothing else | not executed | Isa.Hart.StepAddi | Isa.Hart.StepAddiCorrected |
| riscv_isa.cpp:269 | SRAI's sign test `(imm >> 5) == 1`, with `imm` as instruction bits 31:25 (0b0100000 = 0x20 for every SRAI), always holds, so SRAI or's in `0xFFFFFFFF << shamt` | SRAI of 16 by 1 writes 0xFFFFFFFE | the arithmetic shift alone, writing 8 | not executed | Isa.SraiSixteen | Isa.ShiftRightSigned |
| riscv_isa.cpp:104 | SRA's sign test `(RB[rs1] >> 4) == 1` holds for the values 16 to 31 | SRA of 16 by 1 writes 0xFFFFFFFE | the arithmetic shift alone, writing 8 | not executed | Isa.SraSixteen | Isa.ShiftRightSigned |

The `Hart` methods keep the behaviour as written, because they model the
simulator. The corrected members are reference definitions beside them, with
their intended properties proved:

- the corrected ORI has exactly the bits of its two operands;
- the corrected JALR target is even, is the sum or one below it, and keeps an
  even sum;
- the logical SRL clears the vacated bits, and differs from the arithmetic
  SRA on every negative value (`Isa.CorrectedShiftsDiffer`);
- the corrected ADDI moves the pc by 4 for the NOP too, and writing x0 + 0
  back changes no register (`Isa.NopKeepsRegs`);
- the arithmetic shift that SRA evidently intends copies the sign bit into the
  vacated bits (`Isa.ShiftRightSignedTop`);
- the corrected DIV and REM (`Isa.RemCorrected`, `Isa.DivRemCorrected`)
  satisfy the division identity, the magnitude bound and the sign rule;
- the corrected DIVU and REMU (`Isa.RemuCorrected`, `Isa.DivuRemuCorrected`)
  write for every pair and satisfy the unsigned division identity.
