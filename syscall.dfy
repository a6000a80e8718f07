/**
 * The system-call glue between the simulated RISC-V program and the host:
 * syscall arguments and results on fixed registers, byte buffers copied to
 * and from guest memory, and the initial guest stack that `set_prog_args`
 * lays out for the program's argc, argv and auxiliary vector.
 */
module RiscvSyscall {
  import opened Words
  import opened Isa

  /*
   * ------------------------------------------------------------------
   * Byte buffers in guest memory
   * ------------------------------------------------------------------
   */

  /** The n bytes of memory from base upwards, wrapping around the top of the address space. */
  function ReadBytes(m: Memory, base: Addr, n: nat): seq<bv8> {
    if n == 0 then [] else ReadBytes(m, base, n - 1) + [ByteAt(m, Offset(base, n - 1))]
  }

  /** Byte k of ReadBytes is the byte at k past base. */
  lemma {:induction false} ReadBytesContents(m: Memory, base: Addr, n: nat)
    ensures |ReadBytes(m, base, n)| == n
    ensures forall k :: 0 <= k < n ==> ReadBytes(m, base, n)[k] == ByteAt(m, Offset(base, k))
  {
    if n > 0 {
      ReadBytesContents(m, base, n - 1);
    }
  }

  /** ReadBytes looks at the n addresses from base and at no other. */
  lemma ReadBytesFrame(m1: Memory, m2: Memory, base: Addr, n: nat)
    requires forall k :: 0 <= k < n ==> ByteAt(m1, Offset(base, k)) == ByteAt(m2, Offset(base, k))
    ensures ReadBytes(m1, base, n) == ReadBytes(m2, base, n)
  {
    ReadBytesContents(m1, base, n);
    ReadBytesContents(m2, base, n);
  }

  /** Memory after s is written byte by byte from base upwards. */
  function WriteBytes(m: Memory, base: Addr, s: seq<bv8>): Memory
    decreases |s|
  {
    if |s| == 0 then m
    else WriteBytes(m, base, s[..|s| - 1])[Offset(base, |s| - 1) := s[|s| - 1]]
  }

  /**
   * After WriteBytes, the address d bytes past base holds s[d] for d below
   * |s|, and every other address holds what it held before.
   */
  lemma {:induction false} WriteBytesContents(m: Memory, base: Addr, s: seq<bv8>, a: Addr)
    requires |s| <= WordCount
    ensures ByteAt(WriteBytes(m, base, s), a) ==
              if Distance(base, a) < |s| then s[Distance(base, a)] else ByteAt(m, a)
  {
    if |s| > 0 {
      var n := |s| - 1;
      WriteBytesContents(m, base, s[..n], a);
      DistanceOffset(base, n);
    }
  }

  /** Writing one more byte extends WriteBytes by one map update. */
  lemma WriteBytesStep(m: Memory, base: Addr, s: seq<bv8>, n: nat)
    requires n < |s|
    ensures WriteBytes(m, base, s[..n + 1]) == WriteBytes(m, base, s[..n])[Offset(base, n) := s[n]]
  {
    assert s[..n + 1][..n] == s[..n];
  }

  /** Reading back the bytes just written gives them back. */
  lemma WriteThenReadBytes(m: Memory, base: Addr, s: seq<bv8>)
    requires |s| <= WordCount
    ensures ReadBytes(WriteBytes(m, base, s), base, |s|) == s
  {
    ReadBytesContents(WriteBytes(m, base, s), base, |s|);
    forall k | 0 <= k < |s|
      ensures ByteAt(WriteBytes(m, base, s), Offset(base, k)) == s[k]
    {
      WriteBytesContents(m, base, s, Offset(base, k));
      DistanceOffset(base, k);
    }
  }

  /** Memory after the words w are written through the data port, 4 bytes apart from base. */
  function WriteWords(port: DataPort, m: Memory, base: Addr, w: seq<bv32>): Memory
    decreases |w|
  {
    if |w| == 0 then m
    else port.writeWord(WriteWords(port, m, base, w[..|w| - 1]), Offset(base, 4 * (|w| - 1)), w[|w| - 1])
  }

  /** How many 4-byte words a loop stepping by 4 from 0 visits below size. */
  function WordsFor(size: nat): nat {
    (size + 3) / 4
  }

  lemma WordsForBounds(size: nat, n: nat)
    requires 4 * (n - 1) < size
    ensures n <= WordsFor(size)
  {
  }

  lemma WordsForExact(size: nat, n: nat)
    requires size <= 4 * n && (n == 0 || 4 * (n - 1) < size)
    ensures n == WordsFor(size)
  {
  }

  /** Writing one more word extends WriteWords by a port write 4 bytes further on. */
  lemma WriteWordsStep(port: DataPort, m: Memory, base: Addr, w: seq<bv32>, n: nat)
    requires n < |w|
    ensures WriteWords(port, m, base, w[..n + 1]) ==
              port.writeWord(WriteWords(port, m, base, w[..n]), Offset(base, 4 * n), w[n])
  {
    assert w[..n + 1][..n] == w[..n];
  }

  /*
   * ------------------------------------------------------------------
   * The initial guest stack
   * ------------------------------------------------------------------
   */

  /** The size of the argument string table, `ac_argstr`. */
  const StringTableSize: nat := 512

  /** Where argument k starts in the string table: the lengths of the earlier ones, each with its NUL. */
  function StartOffset(argv: seq<seq<bv8>>, k: nat): nat
    requires k <= |argv|
  {
    if k == 0 then 0 else StartOffset(argv, k - 1) + |argv[k - 1]| + 1
  }

  /** Later arguments start further along. */
  lemma {:induction false} StartOffsetMonotone(argv: seq<seq<bv8>>, i: nat, k: nat)
    requires i <= k <= |argv|
    ensures StartOffset(argv, i) <= StartOffset(argv, k)
  {
    if i < k {
      StartOffsetMonotone(argv, i, k - 1);
    }
  }

  /** Every argument string, with its NUL, fits into the string table. */
  predicate Fits(argv: seq<seq<bv8>>) {
    StartOffset(argv, |argv|) <= StringTableSize
  }

  /**
   * The arguments fail to fit exactly when some argument, added at its own
   * start offset, runs past the end of the table: the test set_prog_args
   * makes before copying each argument.
   */
  lemma FitsPerArgument(argv: seq<seq<bv8>>)
    ensures !Fits(argv) <==>
              exists k :: 0 <= k < |argv| && StartOffset(argv, k) + |argv[k]| + 1 > StringTableSize
  {
    if !Fits(argv) {
      var k := FirstOverflow(argv, |argv|);
      assert StartOffset(argv, k + 1) == StartOffset(argv, k) + |argv[k]| + 1;
    } else {
      forall k | 0 <= k < |argv|
        ensures StartOffset(argv, k) + |argv[k]| + 1 <= StringTableSize
      {
        StartOffsetMonotone(argv, k + 1, |argv|);
      }
    }
  }

  /** An argument below n whose end passes the table's end, when the first n arguments do not fit. */
  lemma {:induction false} FirstOverflow(argv: seq<seq<bv8>>, n: nat) returns (k: nat)
    requires n <= |argv| && StartOffset(argv, n) > StringTableSize
    ensures k < n && StartOffset(argv, k + 1) > StringTableSize
  {
    if StartOffset(argv, n - 1) > StringTableSize {
      k := FirstOverflow(argv, n - 1);
    } else {
      k := n - 1;
    }
  }

  /** The first k argument strings, each followed by its NUL, as memcpy lays them out. */
  function ArgStrings(argv: seq<seq<bv8>>, k: nat): seq<bv8>
    requires k <= |argv|
  {
    if k == 0 then [] else ArgStrings(argv, k - 1) + argv[k - 1] + [0]
  }

  lemma {:induction false} ArgStringsLength(argv: seq<seq<bv8>>, k: nat)
    requires k <= |argv|
    ensures |ArgStrings(argv, k)| == StartOffset(argv, k)
  {
    if k > 0 {
      ArgStringsLength(argv, k - 1);
    }
  }

  /**
   * Argument i sits in the string table at its start offset, and its NUL
   * right after it.
   */
  lemma {:induction false} ArgStringsContents(argv: seq<seq<bv8>>, k: nat, i: nat)
    requires i < k <= |argv|
    ensures StartOffset(argv, i + 1) <= |ArgStrings(argv, k)|
    ensures ArgStrings(argv, k)[StartOffset(argv, i)..StartOffset(argv, i + 1)] == argv[i] + [0]
  {
    ArgStringsLength(argv, k);
    StartOffsetMonotone(argv, i + 1, k);
    if i == k - 1 {
      ArgStringsLength(argv, k - 1);
    } else {
      ArgStringsContents(argv, k - 1, i);
      ArgStringsLength(argv, k - 1);
      StartOffsetMonotone(argv, i + 1, k - 1);
      assert ArgStrings(argv, k)[..|ArgStrings(argv, k - 1)|] == ArgStrings(argv, k - 1);
    }
  }

  /** The 512 bytes set_prog_args copies out: the strings, then whatever ac_argstr held after them. */
  function ArgImage(argv: seq<seq<bv8>>, junk: seq<bv8>): (image: seq<bv8>)
    requires Fits(argv) && |junk| == StringTableSize
    ensures |image| == StringTableSize
  {
    ArgStringsLength(argv, |argv|);
    ArgStrings(argv, |argv|) + junk[StartOffset(argv, |argv|)..]
  }

  /** The guest address of the argument string that starts off bytes into the string table. */
  function ArgPointer(strtable: bv32, off: nat): bv32 {
    strtable + Word(off)
  }

  /** The guest addresses of the first k argument strings. */
  function Pointers(argv: seq<seq<bv8>>, strtable: bv32, k: nat): seq<bv32>
    requires k <= |argv|
  {
    if k == 0 then [] else Pointers(argv, strtable, k - 1) + [ArgPointer(strtable, StartOffset(argv, k - 1))]
  }

  lemma {:induction false} PointersContents(argv: seq<seq<bv8>>, strtable: bv32, k: nat)
    requires k <= |argv|
    ensures |Pointers(argv, strtable, k)| == k
    ensures forall i :: 0 <= i < k ==> Pointers(argv, strtable, k)[i] == ArgPointer(strtable, StartOffset(argv, i))
  {
    if k > 0 {
      PointersContents(argv, strtable, k - 1);
      var prev := Pointers(argv, strtable, k - 1);
      forall i | 0 <= i < k
        ensures Pointers(argv, strtable, k)[i] == ArgPointer(strtable, StartOffset(argv, i))
      {
        if i < k - 1 {
          assert Pointers(argv, strtable, k)[i] == prev[i];
        }
      }
    }
  }

  /** The auxiliary vector: AT_PAGESZ with 4096, then AT_NULL. */
  const AuxVector: seq<bv32> := [6, 4096, 0]

  /** The words of `guest_stack`: argc, the argv pointers, the argv end, an empty envp, the auxv. */
  function StackImage(argv: seq<seq<bv8>>, strtable: bv32): seq<bv32> {
    [Word(|argv|)] + Pointers(argv, strtable, |argv|) + [0, 0] + AuxVector
  }

  /** The guest stack has argc + 6 words, laid out as the memory diagram of set_prog_args shows. */
  lemma StackLayout(argv: seq<seq<bv8>>, strtable: bv32)
    ensures |StackImage(argv, strtable)| == |argv| + 6
    ensures StackImage(argv, strtable)[0] == Word(|argv|)
    ensures forall i :: 0 <= i < |argv| ==>
              StackImage(argv, strtable)[1 + i] == ArgPointer(strtable, StartOffset(argv, i))
    ensures StackImage(argv, strtable)[|argv| + 1..] == [0, 0, 6, 4096, 0]
  {
    PointersContents(argv, strtable, |argv|);
  }

  /** The guest stack fills exactly the words set_buffer_noinvert writes for its size in bytes. */
  lemma StackImageSize(argv: seq<seq<bv8>>, strtable: bv32)
    ensures |StackImage(argv, strtable)| == |argv| + 6 == WordsFor((|argv| + 6) * 4)
  {
    PointersContents(argv, strtable, |argv|);
  }

  /** `strtable`: 512 bytes below the end of RAM, and 64 KiB lower for every earlier program. */
  function StringTableAddr(ramEnd: bv32, procNumber: bv32): bv32 {
    ramEnd - 512 - procNumber * 64 * 1024
  }

  /** `strtable - guest_stack_size * 4`: the stack pointer the program starts with. */
  function StackBase(strtable: bv32, argc: nat): bv32 {
    strtable - Word((argc + 6) * 4)
  }

  /*
   * ------------------------------------------------------------------
   * The syscall object
   * ------------------------------------------------------------------
   */

  class Syscall {
    /** The processor whose registers and memory the syscalls use. */
    const hart: Hart
    /** The global `procNumber`: how many programs have already received their arguments. */
    var procNumber: bv32
    /** AC_RAM_END, the end of guest RAM, fixed when the simulator is built. */
    const ramEnd: bv32

    ghost predicate Valid()
      reads this, hart
    {
      hart.Valid()
    }

    constructor (hart: Hart, ramEnd: bv32)
      requires hart.Valid()
      ensures Valid() && this.hart == hart && this.ramEnd == ramEnd && procNumber == 0
    {
      this.hart := hart;
      this.ramEnd := ramEnd;
      procNumber := 0;
    }

    /** `get_buffer`: size bytes from the address in argument register argn. */
    method GetBuffer(argn: int, size: nat) returns (buf: seq<bv8>)
      requires Valid() && 0 <= 4 + argn < 32 && size < WordCount
      ensures buf == ReadBytes(hart.mem, AddrOf(hart.RB[4 + argn]), size)
    {
      var base := AddrOf(hart.RB[4 + argn]);
      var addr := base;
      buf := [];
      var i := 0;
      while i < size
        invariant 0 <= i <= size
        invariant addr == Offset(base, i)
        invariant buf == ReadBytes(hart.mem, base, i)
      {
        buf := buf + [ByteAt(hart.mem, addr)];
        OffsetStep(base, i, 1);
        i, addr := i + 1, Offset(addr, 1);
      }
    }

    /** `guest2hostmemcpy`: size bytes of guest memory from src. */
    method GuestToHost(src: Addr, size: nat) returns (dst: seq<bv8>)
      requires Valid() && size < WordCount
      ensures dst == ReadBytes(hart.mem, src, size)
    {
      dst := [];
      var from := src;
      var i := 0;
      while i < size
        invariant 0 <= i <= size
        invariant from == Offset(src, i)
        invariant dst == ReadBytes(hart.mem, src, i)
      {
        dst := dst + [ByteAt(hart.mem, from)];
        OffsetStep(src, i, 1);
        i, from := i + 1, Offset(from, 1);
      }
    }

    /** `set_buffer`: the first size bytes of buf into memory from the address in argument register argn. */
    method SetBuffer(argn: int, buf: seq<bv8>, size: nat)
      requires Valid() && 0 <= 4 + argn < 32 && size <= |buf| && size < WordCount
      modifies hart
      ensures hart.mem == WriteBytes(old(hart.mem), AddrOf(hart.RB[4 + argn]), buf[..size])
      ensures hart.pc == old(hart.pc)
    {
      var base := AddrOf(hart.RB[4 + argn]);
      var addr := base;
      var i := 0;
      while i < size
        invariant 0 <= i <= size
        invariant addr == Offset(base, i)
        invariant hart.mem == WriteBytes(old(hart.mem), base, buf[..i])
        invariant hart.pc == old(hart.pc)
      {
        WriteBytesStep(old(hart.mem), base, buf, i);
        hart.mem := hart.mem[addr := buf[i]];
        OffsetStep(base, i, 1);
        i, addr := i + 1, Offset(addr, 1);
      }
    }

    /** `host2guestmemcpy`: the first size bytes of src into memory from dst. */
    method HostToGuest(dst: Addr, src: seq<bv8>, size: nat)
      requires Valid() && size <= |src| && size < WordCount
      modifies hart
      ensures hart.mem == WriteBytes(old(hart.mem), dst, src[..size])
      ensures hart.pc == old(hart.pc)
    {
      var to := dst;
      var i := 0;
      while i < size
        invariant 0 <= i <= size
        invariant to == Offset(dst, i)
        invariant hart.mem == WriteBytes(old(hart.mem), dst, src[..i])
        invariant hart.pc == old(hart.pc)
      {
        WriteBytesStep(old(hart.mem), dst, src, i);
        hart.mem := hart.mem[to := src[i]];
        OffsetStep(dst, i, 1);
        i, to := i + 1, Offset(to, 1);
      }
    }

    /**
     * `set_buffer_noinvert`: the buffer, read as host words 4 bytes at a
     * time, goes out through the data port's word writes from the address
     * in argument register argn; a size that is not a multiple of 4 still
     * writes its last, partial word.  The C counter is an `unsigned int`
     * stepped by 4, so a size above 0xFFFFFFFC would wrap it back below size
     * and never end the loop; callers pass at most that.
     */
    method SetBufferNoinvert(argn: int, words: seq<bv32>, size: nat)
      requires Valid() && 0 <= 4 + argn < 32 && WordsFor(size) <= |words| && size <= 0xFFFF_FFFC
      modifies hart
      ensures hart.mem == WriteWords(hart.port, old(hart.mem), AddrOf(hart.RB[4 + argn]), words[..WordsFor(size)])
      ensures hart.pc == old(hart.pc)
    {
      var base := AddrOf(hart.RB[4 + argn]);
      var addr := base;
      var i, n := 0, 0;
      while i < size
        invariant i == 4 * n && i < size + 4 && n <= |words|
        invariant addr == Offset(base, i)
        invariant hart.mem == WriteWords(hart.port, old(hart.mem), base, words[..n])
        invariant hart.pc == old(hart.pc)
      {
        WordsForBounds(size, n + 1);
        WriteWordsStep(hart.port, old(hart.mem), base, words, n);
        hart.mem := hart.port.writeWord(hart.mem, addr, words[n]);
        OffsetStep(base, i, 4);
        i, n, addr := i + 4, n + 1, Offset(addr, 4);
      }
      WordsForExact(size, n);
    }

    /** `get_int`: syscall argument argn, held in register 4 + argn. */
    function GetInt(argn: int): bv32
      requires Valid() && 0 <= 4 + argn < 32
      reads this, hart, hart.RB
    {
      hart.RB[4 + argn]
    }

    /** `set_int`: syscall result argn goes to register 2 + argn, where argument argn - 2 is read. */
    method SetInt(argn: int, val: bv32)
      requires Valid() && 0 <= 2 + argn < 32
      modifies hart.RB
      ensures hart.Regs() == old(hart.Regs())[2 + argn := val]
      ensures hart.pc == old(hart.pc) && hart.mem == old(hart.mem)
      ensures 2 <= 2 + argn ==> GetInt(argn - 2) == val
    {
      hart.RB[2 + argn] := val;
    }

    /** `return_from_syscall`: the pc resumes at the return address in register 1. */
    method ReturnFromSyscall()
      requires Valid()
      modifies hart
      ensures hart.pc == hart.RB[1]
      ensures hart.Regs() == old(hart.Regs()) && hart.mem == old(hart.mem)
    {
      hart.pc := hart.RB[1];
    }

    /** `set_pc`. */
    method SetPc(val: bv32)
      requires Valid()
      modifies hart
      ensures hart.pc == val && hart.mem == old(hart.mem)
    {
      hart.pc := val;
    }

    /** `get_return`: the value in register 1. */
    function GetReturn(): bv32
      requires Valid()
      reads this, hart, hart.RB
    {
      hart.RB[1]
    }

    /** `set_return`: register 1 only, which GetReturn then reads back. */
    method SetReturn(val: bv32)
      requires Valid()
      modifies hart.RB
      ensures hart.Regs() == old(hart.Regs())[1 := val]
      ensures hart.pc == old(hart.pc) && hart.mem == old(hart.mem)
      ensures GetReturn() == val
    {
      hart.RB[1] := val;
    }

    /**
     * `set_prog_args`.  Each argv entry is the bytes strlen counts; junk is
     * what the uninitialised `ac_argstr` holds.  When the strings do not fit
     * into 512 bytes the C code exits, and the model returns false with
     * nothing changed.
     */
    method SetProgArgs(argv: seq<seq<bv8>>, junk: seq<bv8>) returns (ok: bool)
      requires Valid() && |junk| == StringTableSize
      requires (|argv| + 6) * 4 < WordCount
      modifies this, hart, hart.RB
      ensures ok <==> Fits(argv)
      ensures !ok ==> hart.Regs() == old(hart.Regs()) && hart.mem == old(hart.mem) && procNumber == old(procNumber)
      ensures ok ==>
                hart.mem == WriteWords(hart.port,
                                       WriteBytes(old(hart.mem), AddrOf(StringTableAddr(ramEnd, old(procNumber))),
                                                  ArgImage(argv, junk)),
                                       AddrOf(StackBase(StringTableAddr(ramEnd, old(procNumber)), |argv|)),
                                       StackImage(argv, StringTableAddr(ramEnd, old(procNumber))))
      ensures ok ==>
                hart.Regs() == old(hart.Regs())
                  [4 := Word(|argv|)]
                  [5 := StackBase(StringTableAddr(ramEnd, old(procNumber)), |argv|) + 4]
                  [29 := StackBase(StringTableAddr(ramEnd, old(procNumber)), |argv|)]
      ensures ok ==> procNumber == old(procNumber) + 1
      ensures hart.pc == old(hart.pc)
    {
      var argstr, guestStack;
      ok, argstr, guestStack := BuildArgs(argv, StringTableAddr(ramEnd, procNumber));
      if !ok {
        // the C code reports "Fatal: argv strings bigger than 512 bytes." and exits
        return;
      }
      StackImageSize(argv, StringTableAddr(ramEnd, procNumber));
      CopyOut(ArgImage(argv, junk), guestStack, StringTableAddr(ramEnd, procNumber),
              StackBase(StringTableAddr(ramEnd, procNumber), |argv|));
      procNumber := procNumber + 1;
    }

    /**
     * The loop of `set_prog_args`: `guest_stack` and the used part of
     * `ac_argstr`, or false as soon as an argument would run past the
     * string table's end.
     */
    static method BuildArgs(argv: seq<seq<bv8>>, strtable: bv32)
      returns (ok: bool, argstr: seq<bv8>, guestStack: seq<bv32>)
      ensures ok <==> Fits(argv)
      ensures ok ==> argstr == ArgStrings(argv, |argv|) && guestStack == StackImage(argv, strtable)
    {
      var argc := |argv|;
      guestStack := [Word(argc)];
      argstr := [];
      var j := 0;
      var k := 0;
      while k < argc
        invariant 0 <= k <= argc
        invariant j == StartOffset(argv, k) <= StringTableSize
        invariant argstr == ArgStrings(argv, k)
        invariant guestStack == [Word(argc)] + Pointers(argv, strtable, k)
      {
        var len := |argv[k]| + 1;
        guestStack := guestStack + [ArgPointer(strtable, j)];
        if j + len > StringTableSize {
          StartOffsetMonotone(argv, k + 1, argc);
          return false, argstr, guestStack;
        }
        argstr := argstr + argv[k] + [0];
        j := j + len;
        k := k + 1;
      }
      guestStack := guestStack + [0, 0] + AuxVector;
      ok := true;
    }

    /**
     * The tail of `set_prog_args` up to the count of programs: the string
     * table goes to strtable and the guest stack to sp, then the stack
     * pointer and the argc and argv arguments are set.
     */
    method CopyOut(image: seq<bv8>, guestStack: seq<bv32>, strtable: bv32, sp: bv32)
      requires Valid() && |image| == StringTableSize
      requires 6 <= |guestStack| == WordsFor(|guestStack| * 4) && |guestStack| * 4 < WordCount
      modifies hart, hart.RB
      ensures hart.mem == WriteWords(hart.port, WriteBytes(old(hart.mem), AddrOf(strtable), image), AddrOf(sp), guestStack)
      ensures hart.Regs() == old(hart.Regs())[4 := Word(|guestStack| - 6)][5 := sp + 4][29 := sp]
      ensures hart.pc == old(hart.pc)
    {
      var guestStackSize := |guestStack|;
      ghost var regs := hart.Regs();
      hart.RB[4] := strtable;
      SetBuffer(0, image, StringTableSize);
      assert image[..StringTableSize] == image;
      hart.RB[4] := sp;
      assert hart.Regs() == regs[4 := sp];
      SetBufferNoinvert(0, guestStack, guestStackSize * 4);
      assert guestStack[..guestStackSize] == guestStack;
      assert hart.Regs() == regs[4 := sp];
      hart.RB[29], hart.RB[4], hart.RB[5] := sp, Word(guestStackSize - 6), sp + 4;
      assert hart.Regs() == regs[4 := sp][29 := sp][4 := Word(guestStackSize - 6)][5 := sp + 4];
      ArgRegisters(regs, sp, Word(guestStackSize - 6), sp + 4);
    }
  }

  /** The registers set_prog_args writes, in its order, end up as if written once each. */
  lemma ArgRegisters<T>(r: seq<T>, sp: T, argc: T, argvAddr: T)
    requires |r| == 32
    ensures r[4 := sp][29 := sp][4 := argc][5 := argvAddr] == r[4 := argc][5 := argvAddr][29 := sp]
  {
  }

  /** `is_mmap_anonymous`: whether MAP_ANONYMOUS, bit 11, is set in the flags. */
  function IsMmapAnonymous(flags: bv32): (r: bool)
    ensures r <==> (flags >> 11) & 1 == 1
  {
    flags & 0x800 != 0
  }
}
