/**
 * The RV32I and RV32M instruction behaviours of the ArchC RISC-V model.
 *
 * ArchC runs, for every instruction, the generic behaviour `instruction`
 * (which advances the pc by 4) and then the instruction's own behaviour.
 * Each behaviour is a method of `Hart` that updates the register bank `RB`,
 * the program counter and the data memory exactly as the C code does,
 * including its quirks: no register is hardwired to zero, SRL and SRLI shift
 * the signed register arithmetically, SRA also sets the top bits of the
 * register values 16 to 31, ORI adds, loads and stores force the
 * top 20 bits of their offset to one, JALR masks its target with 0xD, and
 * the division guards `(RB[rs1] == -2^(31)) && (RB[rs2] == -1)`, which C
 * parses as `((RB[rs1] == -2) ^ 31) && (RB[rs2] == -1)`, fire for every
 * divisor -1.
 *
 * Register values are `ac_word`s, taken here as signed 32-bit C ints: the
 * C relational operators and `/`, `%` act on `Signed` readings unless the
 * C code casts to `ac_Uword`, when they act on `Unsigned` readings.
 */
module Isa {
  import opened Words
  import opened IsaHelper

  /** A register number: the rd, rs1 and rs2 fields are 5 bits wide. */
  type Reg = r: nat | r < 32

  /*
   * ------------------------------------------------------------------
   * Operands as the behaviours assemble them
   * ------------------------------------------------------------------
   */

  /**
   * The `sign_ext` of ADDI, SLTI, SLTIU, XORI, ORI and ANDI: the top 20
   * bits are set when `imm >> 11 == 1`.  For a 12-bit field this is the
   * helper's sign extension from bit 11.
   */
  function ImmI(imm: bv32): bv32 {
    if imm >> 11 == 1 then imm | 0xFFFF_F000 else imm
  }

  /**
   * For a 12-bit field, ImmI is the helper's sign extension from bit 11 and
   * gives the field's two's complement value.
   */
  lemma ImmIValue(imm: bv32)
    requires imm < 0x1000
    ensures ImmI(imm) == SignExtend(imm, 12)
    ensures Signed(ImmI(imm)) == if imm >= 0x800 then Unsigned(imm) - 0x1000 else Unsigned(imm)
    ensures -0x800 <= Signed(ImmI(imm)) < 0x800
  {
    SignExtendTwelve(imm);
  }

  /** The offset `imm | 0xFFFFF000` that every load and store adds to RB[rs1]. */
  function MemOffset(imm: bv32): bv32 {
    imm | 0xFFFF_F000
  }

  /**
   * The load and store offset is always negative, between -4096 and -1; for
   * a 12-bit field it is the field's unsigned value minus 4096.
   */
  lemma MemOffsetValue(imm: bv32)
    ensures -0x1000 <= Signed(MemOffset(imm)) < 0
    ensures imm < 0x1000 ==> Signed(MemOffset(imm)) == Unsigned(imm) - 0x1000
  {
    TopBitsSet(imm);
    if imm < 0x800 {
      OrLowField(imm);
    } else if imm < 0x1000 {
      OrHighField(imm);
    }
  }

  lemma TopBitsSet(imm: bv32)
    ensures Unsigned(imm | 0xFFFF_F000) >= 0xFFFF_F000
  {
    assert imm | 0xFFFF_F000 >= 0xFFFF_F000;
  }

  lemma OrLowField(imm: bv32)
    requires imm < 0x800
    ensures Unsigned(imm | 0xFFFF_F000) == Unsigned(imm) + 0xFFFF_F000
  {
  }

  lemma OrHighField(imm: bv32)
    requires 0x800 <= imm < 0x1000
    ensures Unsigned(imm | 0xFFFF_F000) == Unsigned(imm) + 0xFFFF_F000
  {
  }

  /** The address a load or store accesses: `RB[rs1] + (imm | 0xFFFFF000)`. */
  function EffectiveAddr(base: bv32, imm: bv32): Addr {
    AddrOf(base + MemOffset(imm))
  }

  /** The offset `(imm1 << 7) | imm2` of the store and branch behaviours. */
  function ImmSB(imm1: bv32, imm2: bv32): bv32 {
    (imm1 << 7) | imm2
  }

  /** A 7-bit imm2 lands in the low 7 bits of the offset and imm1 above it. */
  lemma ImmSBFields(imm1: bv32, imm2: bv32)
    requires imm2 < 0x80
    ensures ImmSB(imm1, imm2) & 0x7F == imm2
    ensures ImmSB(imm1, imm2) >> 7 == imm1 & 0x1FF_FFFF
  {
  }

  /**
   * A 5-bit imm2, the width of the low immediate field of the RISC-V S and
   * B formats, leaves bits 5 and 6 of the offset zero.
   */
  lemma ImmSBFiveBitField(imm1: bv32, imm2: bv32)
    requires imm2 < 0x20
    ensures ImmSB(imm1, imm2) & 0x1F == imm2
    ensures ImmSB(imm1, imm2) & 0x60 == 0
  {
  }

  /**
   * The behaviours neither scale nor sign-extend the offset: with unsigned
   * fields of at most 7 bits the offset is below 0x4000, so a branch moves
   * the pc forward only (barring wrap-around at the top of the address
   * space).  Only a decoder that sign-extends imm1 yields a negative offset.
   */
  lemma ImmSBUnsignedFields(imm1: bv32, imm2: bv32)
    requires imm1 < 0x80 && imm2 < 0x80
    ensures ImmSB(imm1, imm2) < 0x4000
  {
  }

  /** A 7-bit imm1 sign-extended by the decoder gives an offset in [-8192, 0). */
  lemma ImmSBSignedHigh(imm1: bv32, imm2: bv32)
    requires imm1 >= 0xFFFF_FFC0 && imm2 < 0x80
    ensures ImmSB(imm1, imm2) >= 0xFFFF_E000
  {
  }

  /** The sum `RB[rs1] + sign_ext` that ADDI writes into rd. */
  function AddiSum(a: bv32, imm: bv32): bv32 {
    a + ImmI(imm)
  }

  /** `addi x0, x0, 0` computed as an ordinary ADDI writes x0 back unchanged. */
  lemma NopKeepsRegs(regs: seq<bv32>)
    requires |regs| == 32
    ensures regs[0 := AddiSum(regs[0], 0)] == regs
  {
    assert ImmI(0) == 0;
  }

  /** The 0 or 1 that SLT, SLTU, SLTI and SLTIU write. */
  function BoolWord(c: bool): (r: bv32)
    ensures r == 0 || r == 1
    ensures r == 1 <==> c
  {
    if c then 1 else 0
  }

  /** `(ac_Sword)(char)byte`: a byte read as a signed char. */
  function SignedByte(b: bv8): (r: bv32)
    ensures -0x80 <= Signed(r) < 0x80
    ensures Signed(r) == if b >= 0x80 then b as int - 0x100 else b as int
    ensures (r & 0xFF) as bv8 == b
  {
    if b >= 0x80 then (b as bv32) | 0xFFFF_FF00 else b as bv32
  }

  /** `(ac_Sword)(short)half`: a half-word read as a signed short. */
  function SignedHalf(h: bv16): (r: bv32)
    ensures Signed(r) == if h as int >= 0x8000 then h as int - 0x1_0000 else h as int
  {
    HalfSign(h);
    if h >= 0x8000 then NegativeHalf(h) else PositiveHalf(h)
  }

  /** A sign-extended half-word lies in the range of a short. */
  lemma SignedHalfRange(h: bv16)
    ensures -0x8000 <= Signed(SignedHalf(h)) < 0x8000
  {
    HalfBound(h);
    var n := h as int;
    assert 0 <= n < 0x1_0000;
  }

  /** Sign extension keeps the half-word in the low 16 bits. */
  lemma SignedHalfLow(h: bv16)
    ensures (SignedHalf(h) & 0xFFFF) as bv16 == h
  {
    if h >= 0x8000 {
      assert SignedHalf(h) == NegativeHalf(h);
    } else {
      assert SignedHalf(h) == PositiveHalf(h);
    }
  }

  function NegativeHalf(h: bv16): (r: bv32)
    requires h >= 0x8000
    ensures Signed(r) == h as int - 0x1_0000
    ensures (r & 0xFFFF) as bv16 == h
  {
    NegativeHalfValue(h);
    NegativeHalfLow(h);
    (h as bv32) | 0xFFFF_0000
  }

  lemma NegativeHalfValue(h: bv16)
    requires h >= 0x8000
    ensures Signed((h as bv32) | 0xFFFF_0000) == h as int - 0x1_0000
  {
  }

  lemma NegativeHalfLow(h: bv16)
    ensures (((h as bv32) | 0xFFFF_0000) & 0xFFFF) as bv16 == h
  {
  }

  function PositiveHalf(h: bv16): (r: bv32)
    requires h < 0x8000
    ensures Signed(r) == h as int
    ensures (r & 0xFFFF) as bv16 == h
  {
    PositiveHalfValue(h);
    (h as bv32)
  }

  lemma PositiveHalfValue(h: bv16)
    requires h < 0x8000
    ensures Signed(h as bv32) == h as int
    ensures ((h as bv32) & 0xFFFF) as bv16 == h
  {
  }

  lemma HalfBound(h: bv16)
    ensures h as int < 0x1_0000
  {
  }

  lemma HalfSign(h: bv16)
    ensures h < 0x8000 <==> h as int < 0x8000
  {
  }

  /** `(ac_Uword)byte`: a byte zero-extended. */
  function UnsignedByte(b: bv8): (r: bv32)
    ensures Unsigned(r) == b as int && Unsigned(r) < 0x100
    ensures (r & 0xFF) as bv8 == b
  {
    b as bv32
  }

  /** `(ac_Uword)half`: a half-word zero-extended. */
  function UnsignedHalf(h: bv16): (r: bv32)
    ensures Unsigned(r) == h as int && Unsigned(r) < 0x1_0000
    ensures (r & 0xFFFF) as bv16 == h
  {
    HalfBound(h);
    ZeroExtendHalf(h);
    h as bv32
  }

  lemma ZeroExtendHalf(h: bv16)
    ensures Unsigned(h as bv32) == h as int
    ensures ((h as bv32) & 0xFFFF) as bv16 == h
  {
  }

  /** The low byte and half-word of a register, as `unsigned char` and `write_half` keep them. */
  function LowByte(w: bv32): bv8 {
    (w & 0xFF) as bv8
  }

  function LowHalf(w: bv32): bv16 {
    (w & 0xFFFF) as bv16
  }

  /**
   * `RB[rs1] >> n` on the signed `ac_word`, as the compilers targeted shift
   * a negative int: arithmetically, copying the sign bit into the n bits
   * vacated at the top.
   */
  function ShiftRightSigned(w: bv32, n: bv32): bv32
    requires n < 32
  {
    if w >= 0x8000_0000 then (w >> n) | !(0xFFFF_FFFF >> n) else w >> n
  }

  /** The arithmetic shift fills the n + 1 bits at the top with w's sign bit. */
  lemma ShiftRightSignedTop(w: bv32, n: bv32)
    requires n < 32
    ensures ShiftRightSigned(w, n) >> (31 - n) == if w >= 0x8000_0000 then 0xFFFF_FFFF >> (31 - n) else 0
  {
  }

  /**
   * On a negative value the arithmetic shift is the complement of the
   * logical shift of the complement.
   */
  lemma ShiftRightSignedComplement(w: bv32, n: bv32)
    requires n < 32 && w >= 0x8000_0000
    ensures ShiftRightSigned(w, n) == !((!w) >> n)
  {
  }

  /**
   * Below the n vacated top bits the arithmetic shift holds the bits of the
   * logical shift w >> n, so with ShiftRightSignedTop every bit is stated.
   */
  lemma ShiftRightSignedLow(w: bv32, n: bv32)
    requires n < 32
    ensures ShiftRightSigned(w, n) & (0xFFFF_FFFF >> n) == w >> n
  {
    if w >= 0x8000_0000 {
      SignFillLow(w, n);
    } else {
      LogicalShiftLow(w, n);
    }
  }

  lemma LogicalShiftLow(w: bv32, n: bv32)
    requires n < 32
    ensures (w >> n) & (0xFFFF_FFFF >> n) == w >> n
  {
  }

  lemma SignFillLow(w: bv32, n: bv32)
    requires n < 32 && w >= 0x8000_0000
    ensures ((w >> n) | !(0xFFFF_FFFF >> n)) & (0xFFFF_FFFF >> n) == w >> n
  {
  }

  /**
   * The value SRA writes: the arithmetic shift, with the top bits also set
   * by `0xFFFFFFFF << n` when the sign test `(RB[rs1] >> 4) == 1` holds.
   */
  function SraValue(a: bv32, n: bv32): bv32
    requires n < 32
  {
    if ShiftRightSigned(a, 4) == 1 then ShiftRightSigned(a, n) | (0xFFFF_FFFF << n)
    else ShiftRightSigned(a, n)
  }

  /** SRA's sign test holds exactly for the register values 16 to 31. */
  lemma SraTest(a: bv32)
    ensures ShiftRightSigned(a, 4) == 1 <==> 16 <= Unsigned(a) < 32
  {
    if a >= 0x8000_0000 {
      ShiftRightSignedTop(a, 4);
    }
  }

  /** Outside the values 16 to 31 SRA is the arithmetic shift. */
  lemma SraOrdinary(a: bv32, n: bv32)
    requires n < 32 && !(16 <= Unsigned(a) < 32)
    ensures SraValue(a, n) == ShiftRightSigned(a, n)
  {
    SraTest(a);
  }

  /**
   * The value SRAI writes: the arithmetic shift, with the top bits also set
   * when the test `(imm >> 5) == 1` on the immediate field holds.
   */
  function SraiValue(a: bv32, shamt: bv32, imm: bv32): bv32
    requires shamt < 32
  {
    if imm >> 5 == 1 then ShiftRightSigned(a, shamt) | (0xFFFF_FFFF << shamt)
    else ShiftRightSigned(a, shamt)
  }

  /** SRAI's test holds exactly for the immediate fields 32 to 63. */
  lemma SraiTest(imm: bv32)
    ensures imm >> 5 == 1 <==> 32 <= Unsigned(imm) < 64
  {
  }

  /** For an immediate field outside 32..63 SRAI is the arithmetic shift. */
  lemma SraiOrdinary(a: bv32, shamt: bv32, imm: bv32)
    requires shamt < 32 && !(32 <= Unsigned(imm) < 64)
    ensures SraiValue(a, shamt, imm) == ShiftRightSigned(a, shamt)
  {
    SraiTest(imm);
  }

  /**
   * Two readings of SRAI's `imm`, whose layout in the `Type_I_shamt` format
   * is not part of this model.  As instruction bits 31:25 (0b0100000 = 0x20
   * for SRAI) the test fires for every register value; as the whole 12-bit
   * field 31:20 (0x400 | shamt) it never does.
   */
  lemma SraiFieldReadings(a: bv32, shamt: bv32)
    requires shamt < 32
    ensures SraiValue(a, shamt, 0x20) == ShiftRightSigned(a, shamt) | (0xFFFF_FFFF << shamt)
    ensures SraiValue(a, shamt, 0x400 | shamt) == ShiftRightSigned(a, shamt)
  {
    SraiTest(0x20);
    TwelveBitField(shamt);
    SraiOrdinary(a, shamt, 0x400 | shamt);
  }

  lemma TwelveBitField(shamt: bv32)
    requires shamt < 32
    ensures Unsigned(0x400 | shamt) == 0x400 + Unsigned(shamt)
  {
  }

  /*
   * ------------------------------------------------------------------
   * Conditions of the conditional branches
   * ------------------------------------------------------------------
   */

  predicate BeqTaken(a: bv32, b: bv32) { a == b }
  predicate BneTaken(a: bv32, b: bv32) { a != b }
  predicate BltTaken(a: bv32, b: bv32) { Signed(a) < Signed(b) }
  /** BGE tests `(RB[rs1] > RB[rs2]) || (RB[rs1] == RB[rs2])`. */
  predicate BgeTaken(a: bv32, b: bv32) { Signed(a) > Signed(b) || a == b }
  predicate BltuTaken(a: bv32, b: bv32) { Unsigned(a) < Unsigned(b) }
  /** BGEU tests the same disjunction on `ac_Uword` casts. */
  predicate BgeuTaken(a: bv32, b: bv32) { Unsigned(a) > Unsigned(b) || a == b }

  /** BNE branches exactly when BEQ does not. */
  lemma BneNegatesBeq(a: bv32, b: bv32)
    ensures BneTaken(a, b) <==> !BeqTaken(a, b)
  {
  }

  /** BGE branches exactly when BLT does not. */
  lemma BgeNegatesBlt(a: bv32, b: bv32)
    ensures BgeTaken(a, b) <==> !BltTaken(a, b)
  {
    if Signed(a) == Signed(b) {
      SignedInjective(a, b);
    }
  }

  /** BGEU branches exactly when BLTU does not. */
  lemma BgeuNegatesBltu(a: bv32, b: bv32)
    ensures BgeuTaken(a, b) <==> !BltuTaken(a, b)
  {
    if Unsigned(a) == Unsigned(b) {
      UnsignedInjective(a, b);
    }
  }

  /*
   * ------------------------------------------------------------------
   * Division as C computes it
   * ------------------------------------------------------------------
   */

  function Abs(x: int): nat {
    if x < 0 then -x else x
  }

  /** C's `/` on ints: the quotient truncated toward zero. */
  function Quot(x: int, y: int): int
    requires y != 0
  {
    if (x < 0) == (y < 0) then Abs(x) / Abs(y) else -(Abs(x) / Abs(y))
  }

  /** C's `%` on ints: what `/` leaves over. */
  function Rem(x: int, y: int): int
    requires y != 0
  {
    x - y * Quot(x, y)
  }

  /**
   * C's quotient and remainder: the remainder is smaller than the divisor
   * in magnitude and has the sign of the dividend, and the quotient never
   * overshoots.
   */
  lemma QuotRem(x: int, y: int)
    requires y != 0
    ensures Abs(Rem(x, y)) < Abs(y)
    ensures Rem(x, y) == 0 || (Rem(x, y) < 0 <==> x < 0)
    ensures Abs(Quot(x, y)) * Abs(y) <= Abs(x)
  {
    RemMagnitude(x, y);
    QuotMagnitude(x, y);
  }

  /** The remainder is the remainder of the magnitudes, with the dividend's sign. */
  lemma RemMagnitude(x: int, y: int)
    requires y != 0
    ensures Rem(x, y) == if x < 0 then -(Abs(x) % Abs(y)) else Abs(x) % Abs(y)
  {
    var a: int, b: int := Abs(x), Abs(y);
    var q := a / b;
    assert a == b * q + a % b;
    var p := y * Quot(x, y);
    if (x < 0) == (y < 0) {
      assert Quot(x, y) == q;
      if x < 0 {
        assert p == (-b) * q == -(b * q);
      } else {
        assert p == b * q;
      }
    } else {
      assert Quot(x, y) == -q;
      if x < 0 {
        assert p == b * (-q) == -(b * q);
      } else {
        assert p == (-b) * (-q) == b * q;
      }
    }
  }

  lemma QuotMagnitude(x: int, y: int)
    requires y != 0
    ensures Abs(Quot(x, y)) * Abs(y) <= Abs(x)
  {
    var a: int, b: int := Abs(x), Abs(y);
    var q := a / b;
    assert a == b * q + a % b;
    assert Abs(Quot(x, y)) == q;
  }

  /**
   * `-2^(31)` as the division behaviours write it.  In C `^` is exclusive or,
   * so this is (-2) XOR 31, which is -31; DIV writes it into rd when its
   * guard fires.
   */
  const CaretMinusThirtyOne: bv32 := 0xFFFF_FFE1

  lemma CaretMinusThirtyOneValue()
    ensures (0 as bv32 - 2) ^ 31 == CaretMinusThirtyOne
    ensures Signed(CaretMinusThirtyOne) == -31
  {
  }

  /** All ones: the -1 of the division behaviours. */
  const AllOnes: bv32 := 0xFFFF_FFFF

  /** The only pattern whose signed value is -1 is all ones. */
  lemma MinusOneIsAllOnes(b: bv32)
    ensures Signed(b) == -1 <==> b == AllOnes
  {
    if Signed(b) == -1 {
      assert Signed(AllOnes) == -1;
      SignedInjective(b, AllOnes);
    }
  }

  /** The pair INT32_MIN, -1 by its signed values. */
  lemma SignedOverflowValues(a: bv32, b: bv32)
    ensures SignedOverflow(a, b) <==> Signed(a) == -SignBitValue && Signed(b) == -1
  {
    MinusOneIsAllOnes(b);
    assert Signed(0x8000_0000) == -SignBitValue;
    if Signed(a) == -SignBitValue {
      SignedInjective(a, 0x8000_0000);
    }
  }

  /**
   * The guard `(RB[rs1] == -2^(31)) && (RB[rs2] == -1)` of the division
   * behaviours as C parses it.  `==` binds tighter than `^`, so the left
   * operand is `(RB[rs1] == -2) ^ 31`, that is 30 or 31.
   */
  predicate DivGuard(a: bv32, b: bv32) {
    (BoolWord(a == 0xFFFF_FFFE) ^ 31) != 0 && b == AllOnes
  }

  /** The guard ignores the dividend: it fires exactly when the divisor is -1. */
  lemma DivGuardIgnoresDividend(a: bv32, b: bv32)
    ensures DivGuard(a, b) <==> b == AllOnes
  {
  }

  /** The one pair for which C's signed `/` and `%` overflow: INT32_MIN and -1. */
  predicate SignedOverflow(a: bv32, b: bv32) {
    a == 0x8000_0000 && b == AllOnes
  }

  /** The value DIV writes into rd. */
  function DivValue(a: bv32, b: bv32): bv32 {
    if b == 0 then AllOnes
    else if DivGuard(a, b) then CaretMinusThirtyOne
    else Word(Quot(Signed(a), Signed(b)))
  }

  /** The value REM writes into rd. */
  function RemValue(a: bv32, b: bv32): bv32 {
    if b == 0 then a
    else if DivGuard(a, b) then 0
    else Word(Rem(Signed(a), Signed(b)))
  }

  /** The value DIVU writes into rd; None when DIVU leaves rd untouched. */
  function DivuValue(a: bv32, b: bv32): Option<bv32> {
    if b == 0 then Some(AllOnes)
    else if DivGuard(a, b) then None
    else Some(Word(Unsigned(a) / Unsigned(b)))
  }

  /** The value REMU writes into rd; None when REMU leaves rd untouched. */
  function RemuValue(a: bv32, b: bv32): Option<bv32> {
    if b == 0 then Some(a)
    else if DivGuard(a, b) then None
    else Some(Word(Unsigned(a) % Unsigned(b)))
  }

  /** Away from the pair INT32_MIN, -1 the truncated quotient of two C ints is again a C int. */
  lemma QuotRange(x: int, y: int)
    requires -SignBitValue <= x < SignBitValue && -SignBitValue <= y < SignBitValue
    requires y != 0 && !(x == -SignBitValue && y == -1)
    ensures -SignBitValue <= Quot(x, y) < SignBitValue
  {
    if y == 1 || y == -1 {
      assert Abs(x) / 1 == Abs(x);
      assert Quot(x, y) == x * y;
    } else {
      QuotMagnitude(x, y);
      var m := Abs(Quot(x, y));
      MulMonotone(m, 2, Abs(y));
      assert m <= SignBitValue / 2;
    }
  }

  lemma MulMonotone(p: nat, a: int, b: int)
    requires a <= b
    ensures p * a <= p * b
  {
    assert p * b - p * a == p * (b - a);
  }

  /**
   * The quotient and remainder of two C ints, away from a zero divisor and
   * INT32_MIN / -1, are C ints whose patterns read back as them.
   */
  lemma TruncatedWords(x: int, y: int)
    requires -SignBitValue <= x < SignBitValue && -SignBitValue <= y < SignBitValue
    requires y != 0 && !(x == -SignBitValue && y == -1)
    ensures Signed(Word(Quot(x, y))) == Quot(x, y)
    ensures Signed(Word(Rem(x, y))) == Rem(x, y)
  {
    QuotRange(x, y);
    SignedWord(Quot(x, y));
    QuotRem(x, y);
    assert Abs(y) <= SignBitValue;
    SignedWord(Rem(x, y));
  }

  /**
   * Away from a zero divisor and a divisor of -1, DIV and REM divide as C
   * does: divisor times quotient plus remainder is the dividend, the
   * remainder is smaller than the divisor in magnitude, and it has the
   * dividend's sign.
   */
  /**
   * The patterns of C's `/` and `%` of two C ints, away from a zero divisor
   * and INT32_MIN / -1, satisfy the division identity, the magnitude bound
   * and the sign rule.
   */
  lemma SignedDivision(a: bv32, b: bv32, q: bv32, r: bv32)
    requires b != 0 && !SignedOverflow(a, b)
    requires q == Word(Quot(Signed(a), Signed(b))) && r == Word(Rem(Signed(a), Signed(b)))
    ensures Signed(b) * Signed(q) + Signed(r) == Signed(a)
    ensures Abs(Signed(r)) < Abs(Signed(b))
    ensures Signed(r) == 0 || (Signed(r) < 0 <==> Signed(a) < 0)
  {
    SignedOverflowValues(a, b);
    UnsignedZero(b);
    var x, y := Signed(a), Signed(b);
    QuotRem(x, y);
    TruncatedWords(x, y);
    assert Signed(q) == Quot(x, y) && Signed(r) == Rem(x, y);
    assert y * Quot(x, y) + Rem(x, y) == x;
  }

  lemma DivRemOrdinary(a: bv32, b: bv32)
    requires b != 0 && b != AllOnes
    ensures Signed(b) * Signed(DivValue(a, b)) + Signed(RemValue(a, b)) == Signed(a)
    ensures Abs(Signed(RemValue(a, b))) < Abs(Signed(b))
    ensures Signed(RemValue(a, b)) == 0 || (Signed(RemValue(a, b)) < 0 <==> Signed(a) < 0)
  {
    DivGuardIgnoresDividend(a, b);
    MinusOneIsAllOnes(b);
    QuotRem(Signed(a), Signed(b));
    TruncatedWords(Signed(a), Signed(b));
  }

  /** Division by zero: DIV and DIVU write all ones, REM and REMU the dividend. */
  lemma DivisionByZero(a: bv32)
    ensures DivValue(a, 0) == AllOnes && DivuValue(a, 0) == Some(AllOnes)
    ensures RemValue(a, 0) == a && RemuValue(a, 0) == Some(a)
  {
  }

  /**
   * Away from a zero divisor and a divisor of all ones, DIVU and REMU write
   * the unsigned quotient and remainder: divisor times quotient plus
   * remainder is the dividend, and the remainder is below the divisor.
   */
  lemma DivuRemuOrdinary(a: bv32, b: bv32)
    requires b != 0 && b != AllOnes
    ensures DivuValue(a, b).Some? && RemuValue(a, b).Some?
    ensures Unsigned(b) * Unsigned(DivuValue(a, b).value) + Unsigned(RemuValue(a, b).value) == Unsigned(a)
    ensures Unsigned(RemuValue(a, b).value) < Unsigned(b)
  {
    DivGuardIgnoresDividend(a, b);
    DivuRemuCorrected(a, b);
  }

  /** The quotient and remainder of unsigned 32-bit values read back from their patterns. */
  lemma UnsignedQuotient(x: nat, y: nat)
    requires x < WordCount && 0 < y < WordCount
    ensures Unsigned(Word(x / y)) == x / y
    ensures Unsigned(Word(x % y)) == x % y
    ensures y * (x / y) + x % y == x && x % y < y
  {
    NatDivMod(x, y);
    UnsignedWord(x / y);
    UnsignedWord(x % y);
  }

  /** Euclidean division of naturals: the quotient is at most the dividend. */
  lemma NatDivMod(x: nat, y: nat)
    requires 0 < y
    ensures y * (x / y) + x % y == x && 0 <= x % y < y
    ensures 0 <= x / y <= x
  {
    MulMonotone(x / y, 1, y);
  }

  /** The pc JALR jumps to: `(imm + RB[rs1]) & 0xD`. */
  function JalrTarget(base: bv32, imm: bv32): (r: bv32)
    ensures r & 0xFFFF_FFF2 == 0
  {
    (imm + base) & 0xD
  }

  /*
   * ------------------------------------------------------------------
   * The processor state and the behaviours
   * ------------------------------------------------------------------
   */

  /**
   * One RISC-V hart: the 32-entry register bank RB, the program counter
   * ac_pc and the data memory reached through DATA_PORT.
   */
  class Hart {
    const RB: array<bv32>
    var pc: bv32
    var mem: Memory
    const port: DataPort

    ghost predicate Valid()
      reads this
    {
      RB.Length == 32
    }

    /** A hart about to run a program loaded into image, starting at entry. */
    constructor (port: DataPort, entry: bv32, image: Memory)
      ensures Valid() && fresh(RB)
      ensures this.port == port && pc == entry && mem == image
    {
      RB := new bv32[32];
      pc := entry;
      mem := image;
      this.port := port;
    }

    /** The register bank as a sequence. */
    function Regs(): (s: seq<bv32>)
      requires Valid()
      reads this, RB
      ensures |s| == 32
    {
      RB[..]
    }

    /** The generic behaviour run before every instruction: `ac_pc = ac_pc + 4`. */
    method Instruction()
      requires Valid()
      modifies this
      ensures pc == old(pc) + 4 && mem == old(mem)
      ensures Regs() == old(Regs())
    {
      pc := pc + 4;
    }

    /** `begin`: every register is set to 0; the pc and memory are left alone. */
    method Begin()
      requires Valid()
      modifies RB
      ensures forall k :: 0 <= k < 32 ==> RB[k] == 0
      ensures pc == old(pc) && mem == old(mem)
    {
      var regNum := 0;
      while regNum < 32
        invariant 0 <= regNum <= 32
        invariant forall k :: 0 <= k < regNum ==> RB[k] == 0
      {
        RB[regNum] := 0;
        regNum := regNum + 1;
      }
    }

    /* Register-register operations. */

    method Add(rd: Reg, rs1: Reg, rs2: Reg)
      requires Valid()
      modifies RB
      ensures Regs() == old(Regs())[rd := old(RB[rs1]) + old(RB[rs2])]
      ensures pc == old(pc) && mem == old(mem)
    {
      RB[rd] := RB[rs1] + RB[rs2];
    }

    method Sub(rd: Reg, rs1: Reg, rs2: Reg)
      requires Valid()
      modifies RB
      ensures Regs() == old(Regs())[rd := old(RB[rs1]) - old(RB[rs2])]
      ensures pc == old(pc) && mem == old(mem)
    {
      RB[rd] := RB[rs1] - RB[rs2];
    }

    /** SLL: C leaves shifts by 32 or more undefined. */
    method Sll(rd: Reg, rs1: Reg, rs2: Reg)
      requires Valid() && RB[rs2] < 32
      modifies RB
      ensures Regs() == old(Regs())[rd := old(RB[rs1]) << old(RB[rs2])]
      ensures pc == old(pc) && mem == old(mem)
    {
      RB[rd] := RB[rs1] << RB[rs2];
    }

    method Slt(rd: Reg, rs1: Reg, rs2: Reg)
      requires Valid()
      modifies RB
      ensures Regs() == old(Regs())[rd := BoolWord(Signed(old(RB[rs1])) < Signed(old(RB[rs2])))]
      ensures pc == old(pc) && mem == old(mem)
    {
      if Signed(RB[rs1]) < Signed(RB[rs2]) {
        RB[rd] := 1;
      } else {
        RB[rd] := 0;
      }
    }

    method Sltu(rd: Reg, rs1: Reg, rs2: Reg)
      requires Valid()
      modifies RB
      ensures Regs() == old(Regs())[rd := BoolWord(Unsigned(old(RB[rs1])) < Unsigned(old(RB[rs2])))]
      ensures pc == old(pc) && mem == old(mem)
    {
      if Unsigned(RB[rs1]) < Unsigned(RB[rs2]) {
        RB[rd] := 1;
      } else {
        RB[rd] := 0;
      }
    }

    method Xor(rd: Reg, rs1: Reg, rs2: Reg)
      requires Valid()
      modifies RB
      ensures Regs() == old(Regs())[rd := old(RB[rs1]) ^ old(RB[rs2])]
      ensures pc == old(pc) && mem == old(mem)
    {
      RB[rd] := RB[rs1] ^ RB[rs2];
    }

    /** SRL shifts the signed register, so arithmetically; C leaves shifts by 32 or more undefined. */
    method Srl(rd: Reg, rs1: Reg, rs2: Reg)
      requires Valid() && RB[rs2] < 32
      modifies RB
      ensures Regs() == old(Regs())[rd := ShiftRightSigned(old(RB[rs1]), old(RB[rs2]))]
      ensures pc == old(pc) && mem == old(mem)
    {
      RB[rd] := ShiftRightSigned(RB[rs1], RB[rs2]);
    }

    /** SRA: the arithmetic shift, or'ed with the top mask when the sign test holds. */
    method Sra(rd: Reg, rs1: Reg, rs2: Reg)
      requires Valid() && RB[rs2] < 32
      modifies RB
      ensures Regs() == old(Regs())[rd := SraValue(old(RB[rs1]), old(RB[rs2]))]
      ensures pc == old(pc) && mem == old(mem)
    {
      if ShiftRightSigned(RB[rs1], 4) == 1 {
        RB[rd] := ShiftRightSigned(RB[rs1], RB[rs2]) | (0xFFFF_FFFF << RB[rs2]);
      } else {
        RB[rd] := ShiftRightSigned(RB[rs1], RB[rs2]);
      }
    }

    method Or(rd: Reg, rs1: Reg, rs2: Reg)
      requires Valid()
      modifies RB
      ensures Regs() == old(Regs())[rd := old(RB[rs1]) | old(RB[rs2])]
      ensures pc == old(pc) && mem == old(mem)
    {
      RB[rd] := RB[rs1] | RB[rs2];
    }

    method And(rd: Reg, rs1: Reg, rs2: Reg)
      requires Valid()
      modifies RB
      ensures Regs() == old(Regs())[rd := old(RB[rs1]) & old(RB[rs2])]
      ensures pc == old(pc) && mem == old(mem)
    {
      RB[rd] := RB[rs1] & RB[rs2];
    }

    /* Loads. */

    method Lb(rd: Reg, rs1: Reg, imm: bv32)
      requires Valid()
      modifies RB
      ensures Regs() == old(Regs())[rd := SignedByte(ByteAt(mem, EffectiveAddr(old(RB[rs1]), imm)))]
      ensures pc == old(pc) && mem == old(mem)
    {
      var byte := ByteAt(mem, EffectiveAddr(RB[rs1], imm));
      RB[rd] := SignedByte(byte);
    }

    method Lh(rd: Reg, rs1: Reg, imm: bv32)
      requires Valid()
      modifies RB
      ensures Regs() == old(Regs())[rd := SignedHalf(port.readHalf(mem, EffectiveAddr(old(RB[rs1]), imm)))]
      ensures pc == old(pc) && mem == old(mem)
    {
      var half := port.readHalf(mem, EffectiveAddr(RB[rs1], imm));
      RB[rd] := SignedHalf(half);
    }

    method Lw(rd: Reg, rs1: Reg, imm: bv32)
      requires Valid()
      modifies RB
      ensures Regs() == old(Regs())[rd := port.readWord(mem, EffectiveAddr(old(RB[rs1]), imm))]
      ensures pc == old(pc) && mem == old(mem)
    {
      RB[rd] := port.readWord(mem, EffectiveAddr(RB[rs1], imm));
    }

    method Lbu(rd: Reg, rs1: Reg, imm: bv32)
      requires Valid()
      modifies RB
      ensures Regs() == old(Regs())[rd := UnsignedByte(ByteAt(mem, EffectiveAddr(old(RB[rs1]), imm)))]
      ensures pc == old(pc) && mem == old(mem)
    {
      var byte := ByteAt(mem, EffectiveAddr(RB[rs1], imm));
      RB[rd] := UnsignedByte(byte);
    }

    method Lhu(rd: Reg, rs1: Reg, imm: bv32)
      requires Valid()
      modifies RB
      ensures Regs() == old(Regs())[rd := UnsignedHalf(port.readHalf(mem, EffectiveAddr(old(RB[rs1]), imm)))]
      ensures pc == old(pc) && mem == old(mem)
    {
      var half := port.readHalf(mem, EffectiveAddr(RB[rs1], imm));
      RB[rd] := UnsignedHalf(half);
    }

    /* Register-immediate operations. */

    /**
     * ADDI.  `addi x0, x0, 0` takes a separate branch that changes no
     * register and adds 4 to the pc, on top of the generic behaviour's 4.
     */
    method Addi(rd: Reg, rs1: Reg, imm: bv32)
      requires Valid()
      modifies this, RB
      ensures rd == 0 && rs1 == 0 && imm == 0 ==> Regs() == old(Regs()) && pc == old(pc) + 4
      ensures !(rd == 0 && rs1 == 0 && imm == 0) ==>
                Regs() == old(Regs())[rd := AddiSum(old(RB[rs1]), imm)] && pc == old(pc)
      ensures mem == old(mem)
    {
      if rd == 0 && rs1 == 0 && imm == 0 {
        pc := pc + 4;
      } else {
        var sum := RB[rs1] + ImmI(imm);
        RB[rd] := sum;
        assert Regs() == old(Regs())[rd := sum];
      }
    }

    /**
     * ADDI as ArchC runs it: the generic behaviour and then ADDI's own.  The
     * NOP `addi x0, x0, 0` moves the pc by 8 and so skips the instruction
     * after it.
     */
    method StepAddi(rd: Reg, rs1: Reg, imm: bv32)
      requires Valid()
      modifies this, RB
      ensures rd == 0 && rs1 == 0 && imm == 0 ==> Regs() == old(Regs()) && pc == old(pc) + 8
      ensures !(rd == 0 && rs1 == 0 && imm == 0) ==>
                Regs() == old(Regs())[rd := AddiSum(old(RB[rs1]), imm)] && pc == old(pc) + 4
      ensures mem == old(mem)
    {
      ghost var regs := Regs();
      ghost var a := RB[rs1];
      Instruction();
      assert Regs() == regs && RB[rs1] == a;
      Addi(rd, rs1, imm);
    }

    /**
     * ADDI as the RISC-V ISA manual defines it: every encoding, the NOP
     * included, writes RB[rs1] plus the immediate into rd.
     */
    method AddiCorrected(rd: Reg, rs1: Reg, imm: bv32)
      requires Valid()
      modifies RB
      ensures Regs() == old(Regs())[rd := AddiSum(old(RB[rs1]), imm)]
      ensures pc == old(pc) && mem == old(mem)
    {
      var sum := RB[rs1] + ImmI(imm);
      RB[rd] := sum;
      assert Regs() == old(Regs())[rd := sum];
    }

    /**
     * The corrected ADDI after the generic behaviour: every ADDI moves the
     * pc by 4, and the NOP changes no register.
     */
    method StepAddiCorrected(rd: Reg, rs1: Reg, imm: bv32)
      requires Valid()
      modifies this, RB
      ensures Regs() == old(Regs())[rd := AddiSum(old(RB[rs1]), imm)] && pc == old(pc) + 4
      ensures rd == 0 && rs1 == 0 && imm == 0 ==> Regs() == old(Regs())
      ensures mem == old(mem)
    {
      ghost var regs := Regs();
      ghost var a := RB[rs1];
      Instruction();
      assert Regs() == regs && RB[rs1] == a;
      AddiCorrected(rd, rs1, imm);
      if rd == 0 && rs1 == 0 && imm == 0 {
        assert a == regs[0];
        NopKeepsRegs(regs);
      }
    }

    method Slti(rd: Reg, rs1: Reg, imm: bv32)
      requires Valid()
      modifies RB
      ensures Regs() == old(Regs())[rd := BoolWord(Signed(old(RB[rs1])) < Signed(ImmI(imm)))]
      ensures pc == old(pc) && mem == old(mem)
    {
      var signExt := ImmI(imm);
      if Signed(RB[rs1]) < Signed(signExt) {
        RB[rd] := 1;
      } else {
        RB[rd] := 0;
      }
    }

    method Sltiu(rd: Reg, rs1: Reg, imm: bv32)
      requires Valid()
      modifies RB
      ensures Regs() == old(Regs())[rd := BoolWord(Unsigned(old(RB[rs1])) < Unsigned(ImmI(imm)))]
      ensures pc == old(pc) && mem == old(mem)
    {
      var signExt := ImmI(imm);
      if Unsigned(RB[rs1]) < Unsigned(signExt) {
        RB[rd] := 1;
      } else {
        RB[rd] := 0;
      }
    }

    method Xori(rd: Reg, rs1: Reg, imm: bv32)
      requires Valid()
      modifies RB
      ensures Regs() == old(Regs())[rd := old(RB[rs1]) ^ ImmI(imm)]
      ensures pc == old(pc) && mem == old(mem)
    {
      RB[rd] := RB[rs1] ^ ImmI(imm);
    }

    /** ORI, which adds the immediate (see OriValue). */
    method Ori(rd: Reg, rs1: Reg, imm: bv32)
      requires Valid()
      modifies RB
      ensures Regs() == old(Regs())[rd := OriValue(old(RB[rs1]), imm)]
      ensures pc == old(pc) && mem == old(mem)
    {
      RB[rd] := RB[rs1] + ImmI(imm);
    }

    method Andi(rd: Reg, rs1: Reg, imm: bv32)
      requires Valid()
      modifies RB
      ensures Regs() == old(Regs())[rd := old(RB[rs1]) & ImmI(imm)]
      ensures pc == old(pc) && mem == old(mem)
    {
      RB[rd] := RB[rs1] & ImmI(imm);
    }

    /** JALR: the pc becomes the masked target, and rd receives the new pc plus 4. */
    method Jalr(rd: Reg, rs1: Reg, imm: bv32)
      requires Valid()
      modifies this, RB
      ensures pc == JalrTarget(old(RB[rs1]), imm)
      ensures Regs() == old(Regs())[rd := JalrTarget(old(RB[rs1]), imm) + 4]
      ensures mem == old(mem)
    {
      var targetAddr := JalrTarget(RB[rs1], imm);
      pc := targetAddr;
      RB[rd] := pc + 4;
    }

    method Slli(rd: Reg, rs1: Reg, shamt: bv32)
      requires Valid() && shamt < 32
      modifies RB
      ensures Regs() == old(Regs())[rd := old(RB[rs1]) << shamt]
      ensures pc == old(pc) && mem == old(mem)
    {
      RB[rd] := RB[rs1] << shamt;
    }

    /** SRLI shifts the signed register arithmetically, as SRL does. */
    method Srli(rd: Reg, rs1: Reg, shamt: bv32)
      requires Valid() && shamt < 32
      modifies RB
      ensures Regs() == old(Regs())[rd := ShiftRightSigned(old(RB[rs1]), shamt)]
      ensures pc == old(pc) && mem == old(mem)
    {
      RB[rd] := ShiftRightSigned(RB[rs1], shamt);
    }

    /** SRAI: as SRA, with the sign test `(imm >> 5) == 1` on the immediate field. */
    method Srai(rd: Reg, rs1: Reg, shamt: bv32, imm: bv32)
      requires Valid() && shamt < 32
      modifies RB
      ensures Regs() == old(Regs())[rd := SraiValue(old(RB[rs1]), shamt, imm)]
      ensures pc == old(pc) && mem == old(mem)
    {
      if imm >> 5 == 1 {
        RB[rd] := ShiftRightSigned(RB[rs1], shamt) | (0xFFFF_FFFF << shamt);
      } else {
        RB[rd] := ShiftRightSigned(RB[rs1], shamt);
      }
    }

    /* Stores. */

    /** SB: only the low byte of RB[rs2] is written, at one address. */
    method Sb(rs1: Reg, rs2: Reg, imm1: bv32, imm2: bv32)
      requires Valid()
      modifies this
      ensures mem == old(mem)[EffectiveAddr(RB[rs1], ImmSB(imm1, imm2)) := LowByte(RB[rs2])]
      ensures pc == old(pc)
    {
      var imm := ImmSB(imm1, imm2);
      var byte := LowByte(RB[rs2]);
      mem := mem[EffectiveAddr(RB[rs1], imm) := byte];
    }

    method Sh(rs1: Reg, rs2: Reg, imm1: bv32, imm2: bv32)
      requires Valid()
      modifies this
      ensures mem == port.writeHalf(old(mem), EffectiveAddr(RB[rs1], ImmSB(imm1, imm2)), LowHalf(RB[rs2]))
      ensures pc == old(pc)
    {
      var imm := ImmSB(imm1, imm2);
      mem := port.writeHalf(mem, EffectiveAddr(RB[rs1], imm), LowHalf(RB[rs2]));
    }

    method Sw(rs1: Reg, rs2: Reg, imm1: bv32, imm2: bv32)
      requires Valid()
      modifies this
      ensures mem == port.writeWord(old(mem), EffectiveAddr(RB[rs1], ImmSB(imm1, imm2)), RB[rs2])
      ensures pc == old(pc)
    {
      var imm := ImmSB(imm1, imm2);
      mem := port.writeWord(mem, EffectiveAddr(RB[rs1], imm), RB[rs2]);
    }

    /* Conditional branches: the offset is added to the already advanced pc. */

    method Beq(rs1: Reg, rs2: Reg, imm1: bv32, imm2: bv32)
      requires Valid()
      modifies this
      ensures pc == if BeqTaken(RB[rs1], RB[rs2]) then old(pc) + ImmSB(imm1, imm2) else old(pc)
      ensures mem == old(mem)
    {
      if RB[rs1] == RB[rs2] {
        pc := pc + ImmSB(imm1, imm2);
      }
    }

    method Bne(rs1: Reg, rs2: Reg, imm1: bv32, imm2: bv32)
      requires Valid()
      modifies this
      ensures pc == if BneTaken(RB[rs1], RB[rs2]) then old(pc) + ImmSB(imm1, imm2) else old(pc)
      ensures mem == old(mem)
    {
      if RB[rs1] != RB[rs2] {
        pc := pc + ImmSB(imm1, imm2);
      }
    }

    method Blt(rs1: Reg, rs2: Reg, imm1: bv32, imm2: bv32)
      requires Valid()
      modifies this
      ensures pc == if BltTaken(RB[rs1], RB[rs2]) then old(pc) + ImmSB(imm1, imm2) else old(pc)
      ensures mem == old(mem)
    {
      if Signed(RB[rs1]) < Signed(RB[rs2]) {
        pc := pc + ImmSB(imm1, imm2);
      }
    }

    method Bge(rs1: Reg, rs2: Reg, imm1: bv32, imm2: bv32)
      requires Valid()
      modifies this
      ensures pc == if BgeTaken(RB[rs1], RB[rs2]) then old(pc) + ImmSB(imm1, imm2) else old(pc)
      ensures mem == old(mem)
    {
      if Signed(RB[rs1]) > Signed(RB[rs2]) || RB[rs1] == RB[rs2] {
        pc := pc + ImmSB(imm1, imm2);
      }
    }

    method Bltu(rs1: Reg, rs2: Reg, imm1: bv32, imm2: bv32)
      requires Valid()
      modifies this
      ensures pc == if BltuTaken(RB[rs1], RB[rs2]) then old(pc) + ImmSB(imm1, imm2) else old(pc)
      ensures mem == old(mem)
    {
      if Unsigned(RB[rs1]) < Unsigned(RB[rs2]) {
        pc := pc + ImmSB(imm1, imm2);
      }
    }

    method Bgeu(rs1: Reg, rs2: Reg, imm1: bv32, imm2: bv32)
      requires Valid()
      modifies this
      ensures pc == if BgeuTaken(RB[rs1], RB[rs2]) then old(pc) + ImmSB(imm1, imm2) else old(pc)
      ensures mem == old(mem)
    {
      if Unsigned(RB[rs1]) > Unsigned(RB[rs2]) || RB[rs1] == RB[rs2] {
        pc := pc + ImmSB(imm1, imm2);
      }
    }

    /* Upper immediates and JAL. */

    method Lui(rd: Reg, imm: bv32)
      requires Valid()
      modifies RB
      ensures Regs() == old(Regs())[rd := imm << 12]
      ensures pc == old(pc) && mem == old(mem)
    {
      RB[rd] := imm << 12;
    }

    method Auipc(rd: Reg, imm: bv32)
      requires Valid()
      modifies RB
      ensures Regs() == old(Regs())[rd := old(pc) + (imm << 12)]
      ensures pc == old(pc) && mem == old(mem)
    {
      RB[rd] := pc + (imm << 12);
    }

    /** JAL: rd receives the advanced pc plus 4 and the pc moves by imm. */
    method Jal(rd: Reg, imm: bv32)
      requires Valid()
      modifies this, RB
      ensures Regs() == old(Regs())[rd := old(pc) + 4]
      ensures pc == imm + old(pc)
      ensures mem == old(mem)
    {
      RB[rd], pc := pc + 4, (imm & 0xFFFF_FFFF) + pc;
    }

    /* The M extension. */

    /** MUL: the low 32 bits of the product. */
    method Mul(rd: Reg, rs1: Reg, rs2: Reg)
      requires Valid()
      modifies RB
      ensures Regs() == old(Regs())[rd := old(RB[rs1]) * old(RB[rs2])]
      ensures pc == old(pc) && mem == old(mem)
    {
      RB[rd] := RB[rs1] * RB[rs2];
    }

    /** DIV; the guard fires for every divisor -1, so C's `/` never sees INT32_MIN / -1. */
    method Div(rd: Reg, rs1: Reg, rs2: Reg)
      requires Valid()
      modifies RB
      ensures Regs() == old(Regs())[rd := DivValue(old(RB[rs1]), old(RB[rs2]))]
      ensures pc == old(pc) && mem == old(mem)
    {
      if RB[rs2] == 0 {
        RB[rd] := AllOnes;
      } else if DivGuard(RB[rs1], RB[rs2]) {
        RB[rd] := CaretMinusThirtyOne;
      } else {
        RB[rd] := Word(Quot(Signed(RB[rs1]), Signed(RB[rs2])));
      }
    }

    method Divu(rd: Reg, rs1: Reg, rs2: Reg)
      requires Valid()
      modifies RB
      ensures Regs() == match DivuValue(old(RB[rs1]), old(RB[rs2]))
                        case Some(v) => old(Regs())[rd := v]
                        case None => old(Regs())
      ensures pc == old(pc) && mem == old(mem)
    {
      if RB[rs2] == 0 {
        RB[rd] := AllOnes;
      } else if DivGuard(RB[rs1], RB[rs2]) {
        // the C code only prints a diagnostic here
      } else {
        RB[rd] := Word(Unsigned(RB[rs1]) / Unsigned(RB[rs2]));
      }
    }

    /** REM; the guard fires for every divisor -1, so C's `%` never sees INT32_MIN % -1. */
    method RemOp(rd: Reg, rs1: Reg, rs2: Reg)
      requires Valid()
      modifies RB
      ensures Regs() == old(Regs())[rd := RemValue(old(RB[rs1]), old(RB[rs2]))]
      ensures pc == old(pc) && mem == old(mem)
    {
      if RB[rs2] == 0 {
        RB[rd] := RB[rs1];
      } else if DivGuard(RB[rs1], RB[rs2]) {
        RB[rd] := 0;
      } else {
        RB[rd] := Word(Rem(Signed(RB[rs1]), Signed(RB[rs2])));
      }
    }

    method Remu(rd: Reg, rs1: Reg, rs2: Reg)
      requires Valid()
      modifies RB
      ensures Regs() == match RemuValue(old(RB[rs1]), old(RB[rs2]))
                        case Some(v) => old(Regs())[rd := v]
                        case None => old(Regs())
      ensures pc == old(pc) && mem == old(mem)
    {
      if RB[rs2] == 0 {
        RB[rd] := RB[rs1];
      } else if DivGuard(RB[rs1], RB[rs2]) {
        // the C code only prints a diagnostic here
      } else {
        RB[rd] := Word(Unsigned(RB[rs1]) % Unsigned(RB[rs2]));
      }
    }
  }

  /*
   * ------------------------------------------------------------------
   * Behaviours as written beside their evident intent
   * ------------------------------------------------------------------
   */

  /** What ORI writes: the sum, not the bitwise or, of RB[rs1] and the immediate. */
  function OriValue(a: bv32, imm: bv32): bv32 {
    AddiSum(a, imm)
  }

  /** ori with 1 on a register holding 1 gives 2, where an or gives 1. */
  lemma OriAdds()
    ensures OriValue(1, 1) == 2 && OriCorrected(1, 1) == 1
  {
  }

  /**
   * Bitwise or with the sign-extended immediate: every bit of RB[rs1] is
   * set, and outside RB[rs1] the result has exactly the immediate's bits.
   */
  function OriCorrected(a: bv32, imm: bv32): (r: bv32)
    ensures r & a == a
    ensures r & !a == ImmI(imm) & !a
  {
    var ext := ImmI(imm);
    OrBits(a, ext);
    a | ext
  }

  lemma OrBits(a: bv32, b: bv32)
    ensures (a | b) & a == a
    ensures (a | b) & !a == b & !a
  {
  }

  /** With imm = 0 a load or store reaches 4096 bytes below RB[rs1]. */
  lemma MemOffsetForcesNegative()
    ensures MemOffset(0) == 0xFFFF_F000 && Signed(MemOffset(0)) == -0x1000
    ensures Signed(ImmI(0)) == 0
  {
  }

  /** JALR jumps to 0 when RB[rs1] is 0x1000 and imm is 0. */
  lemma JalrMasksTarget()
    ensures JalrTarget(0x1000, 0) == 0
    ensures JalrCorrected(0x1000, 0) == 0x1000
  {
  }

  /**
   * The JALR target as the RISC-V ISA manual defines it: RB[rs1] plus the
   * sign-extended immediate, with bit 0 cleared.  It is even, and it is the
   * sum or one below it.
   */
  function JalrCorrected(base: bv32, imm: bv32): (r: bv32)
    ensures r & 1 == 0
    ensures r == base + ImmI(imm) || r + 1 == base + ImmI(imm)
  {
    ClearLowBit(base + ImmI(imm));
    (base + ImmI(imm)) & 0xFFFF_FFFE
  }

  /** A target that is already even is left as it is. */
  lemma JalrCorrectedKeepsEven(base: bv32, imm: bv32)
    requires (base + ImmI(imm)) & 1 == 0
    ensures JalrCorrected(base, imm) == base + ImmI(imm)
  {
    KeepUpperBits(base + ImmI(imm));
  }

  lemma ClearLowBit(x: bv32)
    ensures (x & 0xFFFF_FFFE) & 1 == 0
    ensures x & 0xFFFF_FFFE == x || (x & 0xFFFF_FFFE) + 1 == x
  {
  }

  lemma KeepUpperBits(x: bv32)
    requires x & 1 == 0
    ensures x & 0xFFFF_FFFE == x
  {
  }

  /** SRL shifts RB[rs1] = 0x80000000 by 1 to 0xC0000000, where a logical shift gives 0x40000000. */
  lemma SrlShiftsArithmetically()
    ensures ShiftRightSigned(0x8000_0000, 1) == 0xC000_0000
    ensures SrlCorrected(0x8000_0000, 1) == 0x4000_0000
  {
  }

  /**
   * SRAI of 16 by 1 with the 7-bit field 0x20 writes 0xFFFFFFFE (-2), where
   * the arithmetic shift gives 8.
   */
  lemma SraiSixteen()
    ensures SraiValue(16, 1, 0x20) == 0xFFFF_FFFE
    ensures ShiftRightSigned(16, 1) == 8
  {
  }

  /** SRA of 16 by 1 writes 0xFFFFFFFE (-2), where the arithmetic shift gives 8. */
  lemma SraSixteen()
    ensures SraValue(16, 1) == 0xFFFF_FFFE
    ensures ShiftRightSigned(16, 1) == 8
  {
  }

  /**
   * SRL as the RISC-V ISA manual defines it, a logical shift: the n bits
   * vacated at the top are zero, and w's sign bit lands just below them.
   */
  function SrlCorrected(w: bv32, n: bv32): (r: bv32)
    requires n < 32
    ensures n > 0 ==> r >> (32 - n) == 0
    ensures r >> (31 - n) == w >> 31
  {
    w >> n
  }

  /** Below the n vacated bits, the logical shift holds exactly the bits of w >> n. */
  lemma SrlCorrectedLow(w: bv32, n: bv32)
    requires n < 32
    ensures SrlCorrected(w, n) & (0xFFFF_FFFF >> n) == w >> n
  {
    LogicalShiftLow(w, n);
  }

  /** Every division by -1 writes -31 into rd, and REM writes 0. */
  lemma DivGuardFires(a: bv32)
    ensures DivValue(a, AllOnes) == CaretMinusThirtyOne && Signed(DivValue(a, AllOnes)) == -31
    ensures RemValue(a, AllOnes) == 0
  {
    DivGuardIgnoresDividend(a, AllOnes);
  }

  /** DIV of 5 by -1 writes -31, where the quotient is -5. */
  lemma DivFiveByMinusOne()
    ensures Signed(DivValue(5, AllOnes)) == -31
    ensures Signed(DivCorrected(5, AllOnes)) == -5
  {
    DivGuardFires(5);
    assert Signed(AllOnes) == -1;
    assert Quot(Signed(5), Signed(AllOnes)) == -5;
    SignedWord(-5);
  }

  /**
   * DIV as table 7.1 of the RISC-V ISA manual's M extension defines it: all
   * ones for a zero divisor, the dividend for INT32_MIN / -1, else the
   * truncated quotient.  It agrees with the C code for every divisor other
   * than -1.
   */
  function DivCorrected(a: bv32, b: bv32): (r: bv32)
    ensures b != AllOnes ==> r == DivValue(a, b)
  {
    DivGuardIgnoresDividend(a, b);
    if b == 0 then AllOnes
    else if SignedOverflow(a, b) then a
    else Word(Quot(Signed(a), Signed(b)))
  }

  /** REM as table 7.1 defines it; it agrees with the C code for every divisor other than -1. */
  function RemCorrected(a: bv32, b: bv32): (r: bv32)
    ensures b != AllOnes ==> r == RemValue(a, b)
  {
    DivGuardIgnoresDividend(a, b);
    if b == 0 then a
    else if SignedOverflow(a, b) then 0
    else Word(Rem(Signed(a), Signed(b)))
  }

  /**
   * The corrected DIV and REM divide every pair but INT32_MIN, -1 exactly:
   * divisor times quotient plus remainder is the dividend, the remainder is
   * smaller than the divisor in magnitude, and it has the dividend's sign.
   * INT32_MIN / -1 gives INT32_MIN with remainder 0.
   */
  lemma DivRemCorrected(a: bv32, b: bv32)
    ensures b != 0 && !SignedOverflow(a, b) ==>
              Signed(b) * Signed(DivCorrected(a, b)) + Signed(RemCorrected(a, b)) == Signed(a)
    ensures b != 0 ==> Abs(Signed(RemCorrected(a, b))) < Abs(Signed(b))
    ensures Signed(RemCorrected(a, b)) == 0 || (Signed(RemCorrected(a, b)) < 0 <==> Signed(a) < 0)
    ensures SignedOverflow(a, b) ==> DivCorrected(a, b) == a && RemCorrected(a, b) == 0
  {
    if b == 0 {
    } else if SignedOverflow(a, b) {
      assert Signed(AllOnes) == -1;
    } else {
      DivRemCorrectedExact(a, b);
    }
  }

  /** Away from a zero divisor and INT32_MIN, -1 the corrected DIV and REM are C's `/` and `%`. */
  lemma DivRemCorrectedExact(a: bv32, b: bv32)
    requires b != 0 && !SignedOverflow(a, b)
    ensures Signed(b) * Signed(DivCorrected(a, b)) + Signed(RemCorrected(a, b)) == Signed(a)
    ensures Abs(Signed(RemCorrected(a, b))) < Abs(Signed(b))
    ensures Signed(RemCorrected(a, b)) == 0 || (Signed(RemCorrected(a, b)) < 0 <==> Signed(a) < 0)
  {
    DivRemCorrectedUnfold(a, b);
    SignedDivision(a, b, DivCorrected(a, b), RemCorrected(a, b));
  }

  lemma DivRemCorrectedUnfold(a: bv32, b: bv32)
    requires b != 0 && !SignedOverflow(a, b)
    ensures DivCorrected(a, b) == Word(Quot(Signed(a), Signed(b)))
    ensures RemCorrected(a, b) == Word(Rem(Signed(a), Signed(b)))
  {
  }

  /** Every division by all ones leaves rd of DIVU and REMU as it was. */
  lemma DivuGuardLeavesRd(a: bv32)
    ensures DivuValue(a, AllOnes) == None
    ensures RemuValue(a, AllOnes) == None
  {
    DivGuardIgnoresDividend(a, AllOnes);
  }

  /** The corrected DIVU and REMU of 0xFFFFFFFF by itself write quotient 1 and remainder 0. */
  lemma DivuRemuCorrectedWrite()
    ensures Unsigned(DivuCorrected(AllOnes, AllOnes)) == 1
    ensures Unsigned(RemuCorrected(AllOnes, AllOnes)) == 0
  {
    UnsignedQuotient(Unsigned(AllOnes), Unsigned(AllOnes));
  }

  /**
   * DIVU as the RISC-V ISA manual defines it: every pair writes rd, all ones
   * for a zero divisor and the unsigned quotient otherwise.  It agrees with
   * the C code wherever that writes rd.
   */
  function DivuCorrected(a: bv32, b: bv32): (r: bv32)
    ensures DivuValue(a, b).Some? ==> r == DivuValue(a, b).value
  {
    if b == 0 then AllOnes else Word(Unsigned(a) / Unsigned(b))
  }

  /** REMU as the RISC-V ISA manual defines it; it agrees with the C code wherever that writes rd. */
  function RemuCorrected(a: bv32, b: bv32): (r: bv32)
    ensures RemuValue(a, b).Some? ==> r == RemuValue(a, b).value
  {
    if b == 0 then a else Word(Unsigned(a) % Unsigned(b))
  }

  /**
   * The corrected DIVU and REMU divide every pair with a nonzero divisor:
   * divisor times quotient plus remainder is the dividend, and the
   * remainder is below the divisor.
   */
  lemma DivuRemuCorrected(a: bv32, b: bv32)
    requires b != 0
    ensures Unsigned(b) * Unsigned(DivuCorrected(a, b)) + Unsigned(RemuCorrected(a, b)) == Unsigned(a)
    ensures Unsigned(RemuCorrected(a, b)) < Unsigned(b)
  {
    UnsignedZero(b);
    DivuRemuCorrectedUnfold(a, b);
    UnsignedQuotient(Unsigned(a), Unsigned(b));
  }

  lemma DivuRemuCorrectedUnfold(a: bv32, b: bv32)
    requires b != 0
    ensures DivuCorrected(a, b) == Word(Unsigned(a) / Unsigned(b))
    ensures RemuCorrected(a, b) == Word(Unsigned(a) % Unsigned(b))
  {
  }

  /*
   * ------------------------------------------------------------------
   * The unsigned reading of `ac_word`
   * ------------------------------------------------------------------
   *
   * `ac_word` is defined outside the modelled files, and the behaviours
   * above take it as a signed int.  Were it unsigned, the uncast `<`, `>`,
   * `/`, `%` and `>>` of SLT, SLTI, BLT, BGE, DIV, REM, SRL, SRLI, SRA and
   * SRAI would act on Unsigned readings (SLTI's int `sign_ext` being
   * converted to unsigned first), and `>>` would be the logical shift:
   * SLT, SLTI, BLT and BGE would test BltuTaken and BgeuTaken, and SRL and
   * SRLI would write SrlCorrected.  The functions and lemmas below give the
   * rest of that reading and where the two readings agree and part.
   */

  /**
   * The signed and unsigned readings of `<` agree exactly when both
   * operands have the same sign bit; so do those of BGE's disjunction.
   */
  lemma LessReadings(a: bv32, b: bv32)
    ensures BltTaken(a, b) == BltuTaken(a, b) <==> (Unsigned(a) < SignBitValue) == (Unsigned(b) < SignBitValue)
    ensures BgeTaken(a, b) == BgeuTaken(a, b) <==> (Unsigned(a) < SignBitValue) == (Unsigned(b) < SignBitValue)
  {
    LessReadingsStrict(a, b);
    BgeNegatesBlt(a, b);
    BgeuNegatesBltu(a, b);
  }

  lemma LessReadingsStrict(a: bv32, b: bv32)
    ensures BltTaken(a, b) == BltuTaken(a, b) <==> (Unsigned(a) < SignBitValue) == (Unsigned(b) < SignBitValue)
  {
    if (Unsigned(a) < SignBitValue) == (Unsigned(b) < SignBitValue) {
      SameSignLess(a, b);
    } else {
      OppositeSignLess(a, b);
    }
  }

  lemma SameSignLess(a: bv32, b: bv32)
    requires (Unsigned(a) < SignBitValue) == (Unsigned(b) < SignBitValue)
    ensures BltTaken(a, b) == BltuTaken(a, b)
  {
    if Unsigned(a) < SignBitValue {
      NonNegativeLess(a, b);
    } else {
      NegativeLess(a, b);
    }
  }

  lemma NonNegativeLess(a: bv32, b: bv32)
    requires Unsigned(a) < SignBitValue && Unsigned(b) < SignBitValue
    ensures BltTaken(a, b) == BltuTaken(a, b)
  {
    SignedOfNonNegative(a);
    SignedOfNonNegative(b);
  }

  lemma SignedOfNonNegative(a: bv32)
    requires Unsigned(a) < SignBitValue
    ensures Signed(a) == Unsigned(a)
  {
  }

  lemma SignedOfNegative(a: bv32)
    requires Unsigned(a) >= SignBitValue
    ensures Signed(a) == Unsigned(a) - WordCount
  {
  }

  lemma NegativeLess(a: bv32, b: bv32)
    requires Unsigned(a) >= SignBitValue && Unsigned(b) >= SignBitValue
    ensures BltTaken(a, b) == BltuTaken(a, b)
  {
    SignedOfNegative(a);
    SignedOfNegative(b);
  }

  lemma OppositeSignLess(a: bv32, b: bv32)
    requires (Unsigned(a) < SignBitValue) != (Unsigned(b) < SignBitValue)
    ensures BltTaken(a, b) != BltuTaken(a, b)
  {
  }

  /** SLT of 0xFFFFFFFF and 0 writes 1 on a signed ac_word and 0 on an unsigned one. */
  lemma LessReadingsDiffer()
    ensures BltTaken(AllOnes, 0) && !BltuTaken(AllOnes, 0)
  {
  }

  /** The value DIV writes on an unsigned ac_word: DIVU's quotient, with -31 for the divisor -1. */
  function DivUnsignedReading(a: bv32, b: bv32): (r: bv32)
    ensures b != AllOnes ==> r == DivuCorrected(a, b)
    ensures b == AllOnes ==> r == CaretMinusThirtyOne
  {
    if b == 0 then AllOnes
    else if DivGuard(a, b) then CaretMinusThirtyOne
    else Word(Unsigned(a) / Unsigned(b))
  }

  /** The value REM writes on an unsigned ac_word: REMU's remainder, with 0 for the divisor -1. */
  function RemUnsignedReading(a: bv32, b: bv32): (r: bv32)
    ensures b != AllOnes ==> r == RemuCorrected(a, b)
    ensures b == AllOnes ==> r == 0
  {
    if b == 0 then a
    else if DivGuard(a, b) then 0
    else Word(Unsigned(a) % Unsigned(b))
  }

  /** On operands whose sign bit is clear, DIV and REM write the same under both readings. */
  lemma DivReadings(a: bv32, b: bv32)
    requires Unsigned(a) < SignBitValue && Unsigned(b) < SignBitValue
    ensures DivValue(a, b) == DivUnsignedReading(a, b)
    ensures RemValue(a, b) == RemUnsignedReading(a, b)
  {
    if b != 0 {
      UnsignedZero(b);
      NonNegativeDivision(Unsigned(a), Unsigned(b));
    }
  }

  lemma NonNegativeDivision(x: nat, y: nat)
    requires x < SignBitValue && 0 < y < SignBitValue
    ensures Quot(ToSigned(x), ToSigned(y)) == x / y
    ensures Rem(ToSigned(x), ToSigned(y)) == x % y
  {
    NatDivMod(x, y);
  }

  /** DIV of -6 by 2 writes -3 on a signed ac_word and 0x7FFFFFFD on an unsigned one. */
  lemma DivReadingsDiffer()
    ensures Signed(DivValue(0xFFFF_FFFA, 2)) == -3
    ensures Unsigned(DivUnsignedReading(0xFFFF_FFFA, 2)) == 0x7FFF_FFFD
  {
    DivMinusSixSigned();
    DivMinusSixUnsigned();
  }

  lemma DivMinusSixSigned()
    ensures Signed(DivValue(0xFFFF_FFFA, 2)) == -3
  {
    assert Signed(0xFFFF_FFFA) == -6 && Signed(2) == 2;
    assert Quot(-6, 2) == -3;
    assert DivValue(0xFFFF_FFFA, 2) == Word(-3);
    SignedWord(-3);
  }

  lemma DivMinusSixUnsigned()
    ensures Unsigned(DivUnsignedReading(0xFFFF_FFFA, 2)) == 0x7FFF_FFFD
  {
    assert Unsigned(0xFFFF_FFFA) / Unsigned(2) == 0x7FFF_FFFD;
    assert DivUnsignedReading(0xFFFF_FFFA, 2) == Word(0x7FFF_FFFD);
    UnsignedWord(0x7FFF_FFFD);
  }

  /** The value SRA writes on an unsigned ac_word: the logical shift, or'ed with the top mask for 16..31. */
  function SraUnsignedReading(a: bv32, n: bv32): bv32
    requires n < 32
  {
    if a >> 4 == 1 then (a >> n) | (0xFFFF_FFFF << n) else a >> n
  }

  /** The value SRAI writes on an unsigned ac_word. */
  function SraiUnsignedReading(a: bv32, shamt: bv32, imm: bv32): bv32
    requires shamt < 32
  {
    if imm >> 5 == 1 then (a >> shamt) | (0xFFFF_FFFF << shamt) else a >> shamt
  }

  /** On a register whose sign bit is clear, SRL writes the same under both readings. */
  lemma SrlReadings(a: bv32, n: bv32)
    requires n < 32 && a < 0x8000_0000
    ensures ShiftRightSigned(a, n) == SrlCorrected(a, n)
  {
    NonNegativeShift(a, n);
  }

  /** On a register whose sign bit is clear, SRA writes the same under both readings. */
  lemma SraReadings(a: bv32, n: bv32)
    requires n < 32 && a < 0x8000_0000
    ensures SraValue(a, n) == SraUnsignedReading(a, n)
  {
    NonNegativeShift(a, n);
    NonNegativeShift(a, 4);
  }

  /** On a register whose sign bit is clear, SRAI writes the same under both readings. */
  lemma SraiReadings(a: bv32, n: bv32, imm: bv32)
    requires n < 32 && a < 0x8000_0000
    ensures SraiValue(a, n, imm) == SraiUnsignedReading(a, n, imm)
  {
    NonNegativeShift(a, n);
  }

  lemma NonNegativeShift(a: bv32, n: bv32)
    requires n < 32 && a < 0x8000_0000
    ensures ShiftRightSigned(a, n) == a >> n
  {
  }

  /**
   * On a negative register, an unsigned ac_word makes SRA (and SRAI, for
   * every field outside 32..63) the logical shift.
   */
  lemma SraUnsignedLogical(a: bv32, n: bv32, imm: bv32)
    requires n < 32 && a >= 0x8000_0000
    ensures SraUnsignedReading(a, n) == SrlCorrected(a, n)
    ensures !(32 <= Unsigned(imm) < 64) ==> SraiUnsignedReading(a, n, imm) == SrlCorrected(a, n)
  {
    SraiTest(imm);
  }

  /**
   * SRL and SRA apply the same `>>` to the same register, so for every
   * register outside 16..31 they write the same value, on a signed ac_word
   * and on an unsigned one alike.
   */
  lemma SrlSraAgree(a: bv32, n: bv32)
    requires n < 32 && !(16 <= Unsigned(a) < 32)
    ensures SraValue(a, n) == ShiftRightSigned(a, n)
    ensures SraUnsignedReading(a, n) == SrlCorrected(a, n)
  {
    SraOrdinary(a, n);
    SraUnsignedTest(a);
  }

  /** On an unsigned ac_word, SRA's test `(RB[rs1] >> 4) == 1` holds exactly for 16..31. */
  lemma SraUnsignedTest(a: bv32)
    ensures a >> 4 == 1 <==> 16 <= Unsigned(a) < 32
  {
  }

  /**
   * SRL and SRA of 0x80000000 by 1 both write 0xC0000000 on a signed
   * ac_word and both 0x40000000 on an unsigned one.
   */
  lemma SrlSraAtSignBit()
    ensures SraValue(0x8000_0000, 1) == ShiftRightSigned(0x8000_0000, 1) == 0xC000_0000
    ensures SraUnsignedReading(0x8000_0000, 1) == SrlCorrected(0x8000_0000, 1) == 0x4000_0000
  {
  }

  /**
   * The logical and the arithmetic shift, as the RISC-V ISA manual's SRL
   * and SRA, differ on every negative value shifted by 1 to 31.
   */
  lemma CorrectedShiftsDiffer(w: bv32, n: bv32)
    requires 0 < n < 32 && w >= 0x8000_0000
    ensures SrlCorrected(w, n) != ShiftRightSigned(w, n)
    ensures SrlCorrected(w, n) < 0x8000_0000 <= ShiftRightSigned(w, n)
  {
    SignFillTop(w, n);
  }

  lemma SignFillTop(w: bv32, n: bv32)
    requires 0 < n < 32 && w >= 0x8000_0000
    ensures w >> n < 0x8000_0000 <= (w >> n) | !(0xFFFF_FFFF >> n)
  {
  }
}
