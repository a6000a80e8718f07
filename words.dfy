/**
 * Machine words, their integer readings, guest addresses and the
 * byte-addressed guest memory shared by the RISC-V simulator's parts.
 *
 * Register values are 32-bit patterns (`bv32`).  The C code of the
 * simulator compares and divides them as C integers, so the model reads a
 * pattern as an integer with `Signed` (a register's `ac_word`) or
 * `Unsigned` (an `ac_Uword` cast) wherever the C code does arithmetic on
 * values rather than on bits.
 */
module Words {

  datatype Option<T> = None | Some(value: T)

  /** The number of 32-bit values, 2^32. */
  const WordCount: int := 0x1_0000_0000

  /** Half of WordCount: the smallest pattern whose top bit is set. */
  const SignBitValue: int := 0x8000_0000

  /** The value of a pattern read as an unsigned 32-bit integer (`ac_Uword`). */
  function Unsigned(w: bv32): (n: nat)
    ensures n < WordCount
  {
    w as int
  }

  /** The two's complement reading of an unsigned 32-bit value n. */
  function ToSigned(n: int): (i: int)
    requires 0 <= n < WordCount
    ensures -SignBitValue <= i < SignBitValue
    ensures i < 0 <==> n >= SignBitValue
    ensures i == n || i == n - WordCount
  {
    if n >= SignBitValue then n - WordCount else n
  }

  /** The value of a pattern read as a two's complement 32-bit integer (`ac_Sword`). */
  function Signed(w: bv32): int {
    ToSigned(Unsigned(w))
  }

  /** A pattern is its own unsigned value, reduced back to 32 bits. */
  lemma UnsignedRoundTrip(w: bv32)
    ensures Unsigned(w) as bv32 == w
  {
  }

  /** Different patterns have different unsigned values. */
  lemma UnsignedInjective(a: bv32, b: bv32)
    requires Unsigned(a) == Unsigned(b)
    ensures a == b
  {
    UnsignedRoundTrip(a);
    UnsignedRoundTrip(b);
  }

  /** Only the zero pattern has unsigned value 0. */
  lemma UnsignedZero(w: bv32)
    ensures Unsigned(w) == 0 <==> w == 0
  {
    if Unsigned(w) == 0 {
      UnsignedInjective(w, 0);
    }
  }

  lemma ToSignedInjective(m: int, n: int)
    requires 0 <= m < WordCount && 0 <= n < WordCount
    requires ToSigned(m) == ToSigned(n)
    ensures m == n
  {
  }

  /** Different patterns have different signed values. */
  lemma SignedInjective(a: bv32, b: bv32)
    requires Signed(a) == Signed(b)
    ensures a == b
  {
    ToSignedInjective(Unsigned(a), Unsigned(b));
    UnsignedInjective(a, b);
  }

  /**
   * The pattern a C `uint32_t` or `int` holds after the integer x is
   * assigned to it: x reduced modulo 2^32.
   */
  function Word(x: int): bv32 {
    (x % WordCount) as bv32
  }

  /** Word keeps only the residue modulo 2^32. */
  lemma WordMod(x: int)
    ensures Word(x) == Word(x % WordCount)
  {
  }

  /** An unsigned 32-bit value survives the trip into a pattern and back. */
  lemma UnsignedWord(n: int)
    requires 0 <= n < WordCount
    ensures Unsigned(Word(n)) == n
  {
  }

  /** A value in the range of a C int survives the trip into a pattern and back. */
  lemma SignedWord(x: int)
    requires -SignBitValue <= x < SignBitValue
    ensures Signed(Word(x)) == x
  {
    var n := if x < 0 then x + WordCount else x;
    assert x % WordCount == n;
    WordMod(x);
    UnsignedWord(n);
  }

  /** A guest address: an `unsigned int` in the simulator's 32-bit address space. */
  type Addr = a: int | 0 <= a < WordCount

  /** The address a register value denotes. */
  function AddrOf(w: bv32): Addr {
    w as int
  }

  /**
   * The address k bytes past base, wrapping around the top of the 32-bit
   * address space as the C `unsigned int` increments do.
   */
  function Offset(base: Addr, k: int): (a: Addr)
    ensures 0 <= k && base + k < WordCount ==> a == base + k
  {
    (base + k) % WordCount
  }

  /** The distance from base up to a, counted with wrap-around. */
  function Distance(base: Addr, a: Addr): (d: nat)
    ensures d < WordCount
    ensures Offset(base, d) == a
  {
    (a - base) % WordCount
  }

  /** Stepping d bytes past the address k bytes past base reaches k + d bytes past base. */
  lemma OffsetStep(base: Addr, k: int, d: int)
    ensures Offset(Offset(base, k), d) == Offset(base, k + d)
  {
    var q := base + k;
    assert q == WordCount * (q / WordCount) + q % WordCount;
    assert (q % WordCount + d) - (q + d) == -WordCount * (q / WordCount);
  }

  /** Offsets below 2^32 are distinct and recovered by Distance. */
  lemma DistanceOffset(base: Addr, k: nat)
    requires k < WordCount
    ensures Distance(base, Offset(base, k)) == k
  {
  }

  /** The guest data memory, one byte per address; an address never written reads as 0. */
  type Memory = map<Addr, bv8>

  function ByteAt(m: Memory, a: Addr): bv8 {
    if a in m then m[a] else 0
  }

  /**
   * The half-word and word accessors of the simulator's `DATA_PORT`.  Their
   * byte order is not visible in the C sources, so they are parameters of
   * the model; byte accesses are `ByteAt` and map update.
   */
  datatype DataPort = DataPort(
    readHalf: (Memory, Addr) -> bv16,
    readWord: (Memory, Addr) -> bv32,
    writeHalf: (Memory, Addr, bv16) -> Memory,
    writeWord: (Memory, Addr, bv32) -> Memory)
}
