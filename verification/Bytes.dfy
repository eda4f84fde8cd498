// Octets, 16-bit quantities and bits, as the C code sees them through uint8_t and uint16_t.

module Bytes {
  type byte = x: int | 0 <= x < 0x100
  type word = x: int | 0 <= x < 0x1_0000

  /** What remains of `n >> 8` when it is stored in a uint8_t. */
  function Hi(n: int): byte { (n / 0x100) % 0x100 }

  /** What remains of `n & 0xff`. */
  function Lo(n: int): byte { n % 0x100 }

  /** The 16-bit value with the given high and low byte. */
  function Word(hi: byte, lo: byte): word { hi * 0x100 + lo }

  /** Splitting into bytes and joining again is reduction to 16 bits, and joining loses nothing. */
  lemma WordOfBytes(n: int, hi: byte, lo: byte)
    ensures Word(Hi(n), Lo(n)) == n % 0x1_0000
    ensures Hi(Word(hi, lo)) == hi && Lo(Word(hi, lo)) == lo
  {
    SplitJoin(n);
    JoinSplit(hi, lo);
  }

  lemma SplitJoin(n: int)
    ensures Word(Hi(n), Lo(n)) == n % 0x1_0000
  {
    var q, m := n / 0x1_0000, n % 0x1_0000;
    assert n == q * 0x1_0000 + m;
    assert n / 0x100 == q * 0x100 + m / 0x100;
    assert Hi(n) == m / 0x100 && Lo(n) == m % 0x100;
  }

  lemma JoinSplit(hi: byte, lo: byte)
    ensures Hi(Word(hi, lo)) == hi && Lo(Word(hi, lo)) == lo
  {
  }

  // ---------- Bits ----------

  /** Bit k of a number, bit 0 being the least significant, as a binary digit. */
  predicate Bit(b: nat, k: nat)
    decreases k
  {
    if k == 0 then b % 2 == 1 else Bit(b / 2, k - 1)
  }

  /** The number with binary digit k replaced by v. */
  function WithBit(b: nat, k: nat, v: bool): nat
    decreases k
  {
    if k == 0 then b - b % 2 + (if v then 1 else 0) else 2 * WithBit(b / 2, k - 1, v) + b % 2
  }

  /** Setting one bit sets that bit and no other. */
  lemma {:induction false} WithBitSetsOne(b: nat, k: nat, v: bool, j: nat)
    ensures Bit(WithBit(b, k, v), j) == if j == k then v else Bit(b, j)
    decreases k
  {
    if k > 0 && j > 0 {
      assert WithBit(b, k, v) / 2 == WithBit(b / 2, k - 1, v);
      WithBitSetsOne(b / 2, k - 1, v, j - 1);
    }
  }

  // ---------- The operators of the source on an octet ----------

  function OneAt(k: nat): bv8
    requires k < 8
  {
    1 << k
  }

  function Narrow(b: byte): bv8 { b as bv8 }

  function Value(x: bv8): byte { x as int }

  function Halved(x: bv8): bv8 { x >> 1 }

  predicate Lowest(x: bv8) { x & 1 != 0 }

  predicate Reads(x: bv8, k: nat)
    requires k < 8
  {
    x & OneAt(k) != 0
  }

  /** The octet with bit k switched on or off by a mask. */
  function Masked(x: bv8, k: nat, v: bool): bv8
    requires k < 8
  {
    if v then x | OneAt(k) else x & !OneAt(k)
  }

  /** `b & (0x01 << k)` is not zero. */
  predicate TestBit(b: byte, k: nat)
    requires k < 8
  {
    Reads(Narrow(b), k)
  }

  /** `b |= 0x01 << k`, or `b &= ~(0x01 << k)`. */
  function SetBit(b: byte, k: nat, v: bool): byte
    requires k < 8
  {
    Value(Masked(Narrow(b), k, v))
  }

  lemma ThereAndBack(b: byte)
    ensures Value(b as bv8) == b
  {
  }

  lemma ValueOfByte(b: byte)
    ensures Value(Narrow(b)) == b
  {
    hide Value;
    ThereAndBack(b);
  }

  lemma ByteOfValue(x: bv8)
    ensures Narrow(Value(x)) == x
  {
  }

  lemma ValueOfHalf(x: bv8)
    ensures Value(x) == 2 * Value(Halved(x)) + (if Lowest(x) then 1 else 0)
  {
  }

  /** Halving an octet shifts its bits, and its lowest bit is its remainder. */
  lemma HalfOfByte(b: byte)
    ensures Narrow(b / 2) == Halved(Narrow(b)) && Lowest(Narrow(b)) == (b % 2 == 1)
  {
    hide Value, Narrow, Halved, Lowest;
    ValueOfByte(b);
    ValueOfHalf(Narrow(b));
    ByteOfValue(Halved(Narrow(b)));
  }

  lemma ReadsFirst(x: bv8)
    ensures Reads(x, 0) == Lowest(x)
  {
  }

  lemma ReadsLater(x: bv8, k: nat)
    requires 0 < k < 8
    ensures Reads(x, k) == Reads(Halved(x), k - 1)
  {
  }

  lemma {:induction false} MaskReadsDigit(x: bv8, k: nat)
    requires k < 8
    ensures Reads(x, k) == Bit(Value(x), k)
    decreases k
  {
    hide Value, Reads, Halved, Lowest;
    ValueOfHalf(x);
    if k == 0 {
      ReadsFirst(x);
    } else {
      ReadsLater(x, k);
      MaskReadsDigit(Halved(x), k - 1);
    }
  }

  lemma MaskedFirst(x: bv8, v: bool)
    ensures Halved(Masked(x, 0, v)) == Halved(x) && Lowest(Masked(x, 0, v)) == v
  {
  }

  lemma MaskedLater(x: bv8, k: nat, v: bool)
    requires 0 < k < 8
    ensures Halved(Masked(x, k, v)) == Masked(Halved(x), k - 1, v) && Lowest(Masked(x, k, v)) == Lowest(x)
  {
  }

  lemma {:induction false} MaskWritesDigit(x: bv8, k: nat, v: bool)
    requires k < 8
    ensures Value(Masked(x, k, v)) == WithBit(Value(x), k, v)
    decreases k
  {
    hide Value, Masked, Halved, Lowest;
    ValueOfHalf(x);
    ValueOfHalf(Masked(x, k, v));
    if k == 0 {
      MaskedFirst(x, v);
    } else {
      MaskedLater(x, k, v);
      MaskWritesDigit(Halved(x), k - 1, v);
    }
  }

  /** AND with a mask reads a binary digit. */
  lemma TestIsBit(b: byte, k: nat)
    requires k < 8
    ensures TestBit(b, k) == Bit(b, k)
  {
    hide Value, Narrow, Reads;
    ValueOfByte(b);
    MaskReadsDigit(Narrow(b), k);
  }

  /** OR with a mask, or AND with its complement, replaces a binary digit. */
  lemma SetIsWithBit(b: byte, k: nat, v: bool)
    requires k < 8
    ensures SetBit(b, k, v) == WithBit(b, k, v)
  {
    hide Value, Narrow, Masked;
    ValueOfByte(b);
    MaskWritesDigit(Narrow(b), k, v);
  }

  /** Setting one bit of an octet with a mask sets that bit and no other. */
  lemma SetBitSetsOne(b: byte, k: nat, v: bool, j: nat)
    requires k < 8 && j < 8
    ensures TestBit(SetBit(b, k, v), j) == if j == k then v else TestBit(b, j)
  {
    hide TestBit, SetBit;
    SetIsWithBit(b, k, v);
    TestIsBit(SetBit(b, k, v), j);
    TestIsBit(b, j);
    WithBitSetsOne(b, k, v, j);
  }
}
