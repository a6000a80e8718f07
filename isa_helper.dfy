/**
 * The helpers the RISC-V instruction behaviours share: sign extension,
 * the floating-point register bank `RBF` holding single and double
 * precision values as raw bit patterns, and the CSR selector `csr_map`.
 */
module IsaHelper {
  import opened Words

  /**
   * sign_extend(word, word_length): when bit word_length-1 is the highest
   * set bit of word, every bit from word_length upwards is set.  The C code
   * shifts the C int word right; for 1 <= word_length <= 31 a logical and an
   * arithmetic shift give the same comparison with 1, since a negative word
   * shifted by at most 30 places is never 1.
   */
  function SignExtend(word: bv32, n: bv32): bv32
    requires 1 <= n <= 31
  {
    if word >> (n - 1) == 1 then word | (0xFFFF_FFFF << n) else word
  }

  /**
   * For a word of n bits, sign extension yields word - 2^n in 32-bit
   * arithmetic when bit n-1 is set, and word itself otherwise.
   */
  lemma {:induction false} SignExtendNarrow(word: bv32, n: bv32)
    requires 1 <= n <= 31
    requires word < 1 << n
    ensures SignExtend(word, n) == if word >= 1 << (n - 1) then word - (1 << n) else word
  {
    if n == 1 {
    } else if n == 2 {
    } else if n == 3 {
    } else if n == 4 {
    } else if n == 5 {
    } else if n == 6 {
    } else if n == 7 {
    } else if n == 8 {
    } else if n == 9 {
    } else if n == 10 {
    } else if n == 11 {
    } else if n == 12 {
    } else if n == 13 {
    } else if n == 14 {
    } else if n == 15 {
    } else if n == 16 {
    } else if n == 17 {
    } else if n == 18 {
    } else if n == 19 {
    } else if n == 20 {
    } else if n == 21 {
    } else if n == 22 {
    } else if n == 23 {
    } else if n == 24 {
    } else if n == 25 {
    } else if n == 26 {
    } else if n == 27 {
    } else if n == 28 {
    } else if n == 29 {
    } else if n == 30 {
    } else {
    }
  }

  /** The I-type width: a 12-bit field read as a signed integer. */
  lemma SignExtendTwelve(word: bv32)
    requires word < 0x1000
    ensures Signed(SignExtend(word, 12)) == if word >= 0x800 then Unsigned(word) - 0x1000 else Unsigned(word)
  {
    if word >= 0x800 {
      assert word >> 11 == 1;
      assert SignExtend(word, 12) == word | 0xFFFF_F000;
    } else {
      assert word >> 11 == 0;
    }
  }

  /** sign_extend(0xFFF, 12) is -1 and sign_extend(0x7FF, 12) is 2047. */
  lemma SignExtendExamples()
    ensures SignExtend(0xFFF, 12) == 0xFFFF_FFFF && Signed(SignExtend(0xFFF, 12)) == -1
    ensures SignExtend(0x7FF, 12) == 0x7FF && Signed(SignExtend(0x7FF, 12)) == 2047
  {
    SignExtendTwelve(0xFFF);
    SignExtendTwelve(0x7FF);
  }

  /** The low and high 32-bit halves of a 64-bit pattern (`temp & 0xFFFFFFFF`, `temp >> 32`). */
  function Low(x: bv64): bv32 {
    (x & 0xFFFF_FFFF) as bv32
  }

  function High(x: bv64): bv32 {
    (x >> 32) as bv32
  }

  /** Shifting a high half into place multiplies it by 2^32. */
  lemma ShiftIsProduct(hi: bv32)
    ensures (hi as bv64) << 32 == (hi as bv64) * 0x1_0000_0000
  {
  }

  /** Two halves joined into a 64-bit pattern: its value is low + 2^32 * high. */
  lemma JoinValue(lo: bv32, hi: bv32)
    ensures Low((lo as bv64) + ((hi as bv64) << 32)) == lo
    ensures High((lo as bv64) + ((hi as bv64) << 32)) == hi
    ensures ((lo as bv64) + ((hi as bv64) << 32)) as int == lo as int + hi as int * 0x1_0000_0000
  {
  }

  /** Splitting a 64-bit pattern into its halves and adding them back loses nothing. */
  lemma HalvesJoin(x: bv64)
    ensures (Low(x) as bv64) + ((High(x) as bv64) << 32) == x
  {
  }

  /**
   * The floating-point register bank: 32 slots of 32 bits.  A double i
   * occupies slots 2i (low half) and 2i+1 (high half).
   */
  class FloatRegs {
    const RBF: array<bv32>

    ghost predicate Valid()
      reads this
    {
      RBF.Length == 32
    }

    constructor ()
      ensures Valid() && fresh(RBF)
      ensures forall k :: 0 <= k < 32 ==> RBF[k] == 0
    {
      RBF := new bv32[32](_ => 0);
    }

    /**
     * load_double: the double whose halves sit in slots 2i and 2i+1; as a
     * 64-bit value it is the low slot plus 2^32 times the high slot.
     */
    function LoadDouble(index: nat): (bits: bv64)
      requires Valid() && index < 16
      reads this, RBF
      ensures Low(bits) == RBF[2 * index] && High(bits) == RBF[2 * index + 1]
      ensures bits as int == RBF[2 * index] as int + RBF[2 * index + 1] as int * 0x1_0000_0000
    {
      var lo, hi := RBF[2 * index], RBF[2 * index + 1];
      JoinValue(lo, hi);
      (lo as bv64) + ((hi as bv64) << 32)
    }

    /** save_double: store the halves of a double in slots 2i and 2i+1. */
    method SaveDouble(input: bv64, index: nat)
      requires Valid() && index < 16
      modifies RBF
      ensures RBF[..] == old(RBF[..])[2 * index := Low(input)][2 * index + 1 := High(input)]
      ensures LoadDouble(index) == input
    {
      RBF[index * 2] := Low(input);
      RBF[index * 2 + 1] := High(input);
      HalvesJoin(input);
    }

    /** load_float: the single-precision pattern in slot i. */
    function LoadFloat(index: nat): bv32
      requires Valid() && index < 32
      reads this, RBF
    {
      RBF[index]
    }

    /** save_float: store a single-precision pattern in slot i. */
    method SaveFloat(input: bv32, index: nat)
      requires Valid() && index < 32
      modifies RBF
      ensures RBF[..] == old(RBF[..])[index := input]
      ensures LoadFloat(index) == input
    {
      RBF[index] := input;
    }

    /** Single-precision slot 2i is the low half of double i; slot 2i+1 its high half. */
    lemma FloatAliasesDouble(index: nat)
      requires Valid() && index < 16
      ensures LoadFloat(2 * index) == Low(LoadDouble(index))
      ensures LoadFloat(2 * index + 1) == High(LoadDouble(index))
    {
    }
  }

  /** The floating-point control and status registers csr_map selects from. */
  datatype Csr = FFlags | Frm | Fcsr

  /** csr_map(i): 1 selects fflags, 2 frm, 3 fcsr, and every other index fflags. */
  function CsrMap(i: int): (c: Csr)
    ensures c == Frm <==> i == 2
    ensures c == Fcsr <==> i == 3
    ensures c == FFlags <==> i != 2 && i != 3
  {
    if i == 1 then FFlags
    else if i == 2 then Frm
    else if i == 3 then Fcsr
    else FFlags
  }

  /** The CSR index of each register. */
  function CsrNumber(c: Csr): (i: int)
    ensures 1 <= i <= 3
  {
    match c
    case FFlags => 1
    case Frm => 2
    case Fcsr => 3
  }

  /** csr_map inverts CsrNumber, so each register is reached by its own index. */
  lemma CsrMapNumber(c: Csr)
    ensures CsrMap(CsrNumber(c)) == c
  {
  }
}
