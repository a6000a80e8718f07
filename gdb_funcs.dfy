/**
 * The debugger's view of a hart: 33 registers (the 32 general purpose
 * registers, then the pc as register 32) and byte access to data memory.
 */
module GdbFuncs {
  import opened Words
  import opened Isa

  /** The number of registers the debugger sees. */
  function NRegs(): nat {
    33
  }

  /**
   * `reg_read`.  The C function falls off its end, returning no defined
   * value, for an index outside 0..32; the model returns None there.
   */
  function RegRead(h: Hart, reg: int): (r: Option<bv32>)
    requires h.Valid()
    reads h, h.RB
    ensures r.Some? <==> 0 <= reg < NRegs()
  {
    if 0 <= reg < 32 then Some(h.RB[reg])
    else if reg == 32 then Some(h.pc)
    else None
  }

  /** Register 32 is the pc; registers 0..31 are RB. */
  lemma RegReadView(h: Hart)
    requires h.Valid()
    ensures forall reg :: 0 <= reg < 32 ==> RegRead(h, reg) == Some(h.Regs()[reg])
    ensures RegRead(h, 32) == Some(h.pc)
  {
  }

  /** `reg_write`: an index outside 0..32 changes nothing. */
  method RegWrite(h: Hart, reg: int, value: bv32)
    requires h.Valid()
    modifies h, h.RB
    ensures 0 <= reg < 32 ==> h.Regs() == old(h.Regs())[reg := value] && h.pc == old(h.pc)
    ensures reg == 32 ==> h.Regs() == old(h.Regs()) && h.pc == value
    ensures !(0 <= reg <= 32) ==> h.Regs() == old(h.Regs()) && h.pc == old(h.pc)
    ensures h.mem == old(h.mem)
    ensures RegRead(h, reg) == if 0 <= reg < NRegs() then Some(value) else None
  {
    if 0 <= reg < 32 {
      h.RB[reg] := value;
    } else if reg == 32 {
      h.pc := value;
    }
  }

  /** `mem_read`: one byte through the data port. */
  function MemRead(h: Hart, address: Addr): bv8
    reads h
  {
    ByteAt(h.mem, address)
  }

  /** `mem_write`: one byte through the data port; registers and pc are untouched. */
  method MemWrite(h: Hart, address: Addr, byte: bv8)
    requires h.Valid()
    modifies h
    ensures h.mem == old(h.mem)[address := byte]
    ensures h.pc == old(h.pc)
    ensures MemRead(h, address) == byte
    ensures forall a: Addr :: a != address ==> MemRead(h, a) == old(MemRead(h, a))
  {
    h.mem := h.mem[address := byte];
  }

  /**
   * Writing a byte and reading any address gives the byte at the address
   * written and the old contents everywhere else.
   */
  lemma MemWriteThenRead(m: Memory, address: Addr, byte: bv8, a: Addr)
    ensures ByteAt(m[address := byte], a) == if a == address then byte else ByteAt(m, a)
  {
  }
}
