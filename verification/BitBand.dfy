/** Counting the bits of a mask, and the bit-band alias of a peripheral register bit. */
module BitBand {

  // ---------- bitcount ----------

  function Half(x: bv32): (h: bv32)
    ensures x != 0 ==> h < x
  {
    x >> 1
  }

  function Double(x: bv32): bv32 {
    x << 1
  }

  predicate Odd(x: bv32) {
    x & 1 == 1
  }

  /** mpl::bitcount<x>: the number of one bits, and the position behind the highest one. */
  function BitCount(x: bv32): nat
    decreases x
  {
    if x == 0 then 0 else BitCount(Half(x)) + (if Odd(x) then 1 else 0)
  }

  function SignificantBits(x: bv32): nat
    decreases x
  {
    if x == 0 then 0 else SignificantBits(Half(x)) + 1
  }

  /** 1 << k */
  function Bit(k: nat): bv32 {
    if k == 0 then 1 else Double(Bit(k - 1))
  }

  lemma HalfZero(x: bv32)
    requires Half(x) == 0
    ensures x == 0 || (x == 1 && Odd(x))
  {
  }

  lemma HalfEven(x: bv32)
    requires !Odd(x)
    ensures Double(Half(x)) == x
  {
  }

  lemma {:induction false} NoBits(x: bv32)
    ensures BitCount(x) == 0 <==> x == 0
    decreases x
  {
    hide Half, Odd;
    if x != 0 {
      NoBits(Half(x));
      if Half(x) == 0 {
        HalfZero(x);
      }
    }
  }

  /** A mask with one one bit is that bit: the bit number that the register templates pass to the
      bit-band operations, significant_bits - 1, is its position. */
  lemma {:induction false} SingleBit(x: bv32)
    requires BitCount(x) == 1
    ensures SignificantBits(x) > 0 && x == Bit(SignificantBits(x) - 1)
    decreases x
  {
    hide Half, Double, Odd;
    if Odd(x) {
      NoBits(Half(x));
      HalfZero(x);
      assert SignificantBits(Half(x)) == 0;
    } else {
      SingleBit(Half(x));
      HalfEven(x);
    }
  }

  lemma DoubleHalf(x: bv32)
    requires x < 0x8000_0000
    ensures Half(Double(x)) == x && !Odd(Double(x)) && (x != 0 ==> Double(x) != 0)
  {
  }

  /** The largest value of 32 - j bits. */
  function Ones(j: nat): (x: bv32)
    ensures j > 0 ==> x < 0x8000_0000
  {
    if j == 0 then 0xFFFF_FFFF else Half(Ones(j - 1))
  }

  lemma OnesTable()
    ensures Ones(31) == 1 && Ones(32) == 0
  {
    assert Ones(4) == 0x0FFF_FFFF;
    assert Ones(8) == 0x00FF_FFFF;
    assert Ones(12) == 0x000F_FFFF;
    assert Ones(16) == 0x0000_FFFF;
    assert Ones(20) == 0x0000_0FFF;
    assert Ones(24) == 0x0000_00FF;
    assert Ones(28) == 0x0000_000F;
  }

  lemma HalfMonotone(x: bv32, y: bv32)
    requires x <= y
    ensures Half(x) <= Half(y)
  {
  }

  lemma DoubleOfHalf(x: bv32, y: bv32)
    requires x <= Half(y)
    ensures Double(x) <= y
  {
  }

  lemma OnesStep(j: nat)
    ensures Ones(j + 1) == Half(Ones(j))
  {
  }

  lemma HalfBelowOnes(x: bv32, j: nat)
    requires x <= Ones(j)
    ensures Half(x) <= Ones(j + 1)
  {
    hide Half, Ones;
    HalfMonotone(x, Ones(j));
    OnesStep(j);
  }

  lemma NothingBelowOnes32(x: bv32)
    requires x <= Ones(32)
    ensures x == 0
  {
    hide Ones;
    OnesTable();
  }

  lemma {:induction false} SignificantBitsBound(x: bv32, j: nat)
    requires j <= 32 && x <= Ones(j)
    ensures SignificantBits(x) <= 32 - j
    decreases 32 - j
  {
    hide Half, Ones, SignificantBits;
    SignificantBitsStep(x);
    if j == 32 {
      NothingBelowOnes32(x);
    } else if x != 0 {
      HalfBelowOnes(x, j);
      SignificantBitsBound(Half(x), j + 1);
    }
  }

  lemma SignificantBitsStep(x: bv32)
    ensures SignificantBits(x) == if x == 0 then 0 else SignificantBits(Half(x)) + 1
  {
    hide Half;
  }

  lemma {:induction false} BitFits(k: nat)
    requires k < 32
    ensures 0 != Bit(k) <= Ones(31 - k)
  {
    hide Half, Double, Ones;
    OnesTable();
    if k > 0 {
      BitFits(k - 1);
      OnesStep(31 - k);
      DoubleOfHalf(Bit(k - 1), Ones(31 - k));
      DoubleHalf(Bit(k - 1));
    }
  }

  lemma {:induction false} BitIsSingle(k: nat)
    requires k < 32
    ensures BitCount(Bit(k)) == 1 && SignificantBits(Bit(k)) == k + 1
  {
    hide Double;
    if k == 0 {
      assert Half(1) == 0 && Odd(1);
    } else {
      BitIsSingle(k - 1);
      BitFits(k - 1);
      BitFits(k);
      DoubleHalf(Bit(k - 1));
    }
  }

  /** bitcount is 1 exactly for the 32 single-bit masks. */
  lemma BitCountIsOneIff(x: bv32)
    ensures BitCount(x) == 1 <==> exists k: nat :: k < 32 && x == Bit(k)
  {
    if BitCount(x) == 1 {
      SingleBit(x);
      SignificantBitsBound(x, 0);
    }
    if k: nat :| k < 32 && x == Bit(k) {
      BitIsSingle(k);
    }
  }

  /** A part of a single bit is nothing or that bit. */
  lemma {:induction false} BitIsPowerOfTwo(k: nat)
    ensures Bit(k) & (Bit(k) - 1) == 0
  {
    if k > 0 {
      BitIsPowerOfTwo(k - 1);
      DoublePowerOfTwo(Bit(k - 1));
    }
  }

  lemma DoublePowerOfTwo(x: bv32)
    requires x & (x - 1) == 0
    ensures Double(x) & (Double(x) - 1) == 0
  {
  }

  lemma PartOfBit(s: bv32, k: nat)
    requires s | Bit(k) == Bit(k)
    ensures s == 0 || s == Bit(k)
  {
    BitIsPowerOfTwo(k);
    PartOfPowerOfTwo(s, Bit(k));
  }

  lemma PartOfPowerOfTwo(s: bv32, c: bv32)
    requires s | c == c && c & (c - 1) == 0
    ensures s == 0 || s == c
  {
  }

  // ---------- the alias region ----------

  const REGION_START: nat := 0x4000_0000
  const REGION_END: nat := 0x4010_0000
  const ALIAS_BASE: nat := 0x4200_0000

  /** bitband_periph::covered */
  predicate Covered(addr: nat) {
    REGION_START <= addr < REGION_END
  }

  /** The address bitset<>, bitclear<> and bittest<> access. */
  function Alias(addr: nat, bit: nat): nat
    requires Covered(addr)
  {
    ALIAS_BASE + (addr - REGION_START) * 32 + bit * 4
  }

  /** The byte and the bit in it that a word of the alias region stands for, as the memory system
      maps it: 32 alias words for each word, that is 8 for each byte. */
  function AliasedByte(a: nat): nat
    requires ALIAS_BASE <= a
  {
    REGION_START + (a - ALIAS_BASE) / 32
  }

  function AliasedBit(a: nat): nat
    requires ALIAS_BASE <= a
  {
    (a - ALIAS_BASE) % 32 / 4
  }

  /** The alias of a register bit stands for that bit, counted in little-endian order, and every
      word of the alias region is the alias of the bit it stands for. */
  lemma AliasRoundTrip(addr: nat, bit: nat, a: nat)
    ensures Covered(addr) ==> AliasedByte(Alias(addr, bit)) == addr + bit / 8 && AliasedBit(Alias(addr, bit)) == bit % 8
    ensures ALIAS_BASE <= a < 0x4400_0000 && a % 4 == 0 ==>
              Covered(AliasedByte(a)) && AliasedBit(a) < 8 && Alias(AliasedByte(a), AliasedBit(a)) == a
  {
    if Covered(addr) {
      assert Alias(addr, bit) - ALIAS_BASE == 32 * (addr - REGION_START + bit / 8) + 4 * (bit % 8);
    }
  }

  /** Aliases of word registers are words of the 32 MB alias region (so the address arithmetic
      does not leave 32 bits), and two aliases are the same only for the same bit of the same word. */
  lemma AliasIsInjective(addr: nat, bit: nat, addr': nat, bit': nat)
    requires Covered(addr) && addr % 4 == 0 && bit < 32
    requires Covered(addr') && addr' % 4 == 0 && bit' < 32
    ensures ALIAS_BASE <= Alias(addr, bit) < 0x4400_0000 && Alias(addr, bit) % 4 == 0
    ensures Alias(addr, bit) == Alias(addr', bit') <==> addr == addr' && bit == bit'
  {
  }

  /** In general two aliases are the same exactly for the same bit of memory. */
  lemma AliasSameIffSameBit(addr: nat, bit: nat, addr': nat, bit': nat)
    requires Covered(addr) && Covered(addr')
    ensures Alias(addr, bit) == Alias(addr', bit') <==> 8 * addr + bit == 8 * addr' + bit'
  {
  }
}
