// The bit-serial CRC-16 of src/small_modbus_utils.c: the loop over machine words, and the proof that
// it clocks the shift register of Gf2 once for each message bit.

module Crc {
  import opened Bytes
  import opened Gf2

  /** One pass of the inner loop: shift right, and fold in 0xA001 when a one falls out. */
  function Step(c: bv16): bv16 {
    if c & 1 == 1 then (c >> 1) ^ 0xA001 else c >> 1
  }

  function Steps(c: bv16, n: nat): bv16
    decreases n
  {
    if n == 0 then c else Steps(Step(c), n - 1)
  }

  /** An octet in a 16-bit word. */
  function Wide(b: byte): bv16 { b as bv16 }

  /** One pass of the outer loop. */
  function FeedByte(c: bv16, b: byte): bv16 {
    Steps(c ^ Wide(b), 8)
  }

  function CrcFrom(c: bv16, s: seq<byte>): bv16
    decreases |s|
  {
    if s == [] then c else FeedByte(CrcFrom(c, s[..|s| - 1]), s[|s| - 1])
  }

  const INITIAL: bv16 := 0xFFFF

  function Checksum(s: seq<byte>): bv16 { CrcFrom(INITIAL, s) }

  lemma ChecksumExtend(c: bv16, s: seq<byte>, b: byte, x: bv16)
    requires c == Checksum(s) && x == c ^ Wide(b)
    ensures Steps(x, 8) == Checksum(s + [b])
  {
    assert (s + [b])[..|s|] == s;
  }

  lemma ChecksumOfNothing()
    ensures Checksum([]) == INITIAL
  {
  }

  /** modbus_crc16 */
  method Crc16(buffer: array<byte>, length: nat) returns (crc: bv16)
    requires length <= buffer.Length
    ensures crc == Checksum(buffer[..length])
  {
    hide Checksum, CrcFrom;
    crc := INITIAL;
    ChecksumOfNothing();
    assert buffer[..0] == [];
    for count := 0 to length
      invariant crc == Checksum(buffer[..count])
    {
      ghost var c, b := crc, buffer[count];
      crc := crc ^ (buffer[count] as bv16);
      ChecksumExtend(c, buffer[..count], b, crc);
      assert buffer[..count] + [b] == buffer[..count + 1];
      ghost var fed := Steps(crc, 8);
      for i := 0 to 8
        invariant Steps(crc, 8 - i) == fed
      {
        if crc & 1 == 1 {
          crc := crc >> 1;
          crc := crc ^ 0xA001;
        } else {
          crc := crc >> 1;
        }
      }
    }
  }

  // ---------- The machine word as a shift register ----------

  function Lsb(p: bv16): bool { p & 1 == 1 }

  function Half(p: bv16): bv16 { p >> 1 }

  /** The lowest n bits of a word, least significant first. */
  function Unpack(p: bv16, n: nat): (bits: seq<bool>)
    ensures |bits| == n
    decreases n
  {
    if n == 0 then [] else [Lsb(p)] + Unpack(Half(p), n - 1)
  }

  /** What is left of a word after n shifts to the right. */
  function ShiftOut(p: bv16, n: nat): bv16
    decreases n
  {
    if n == 0 then p else ShiftOut(Half(p), n - 1)
  }

  function Reg(c: bv16): Register { Unpack(c, 16) }

  /** The bits of an octet in transmission order, least significant first. */
  function BitsOf(b: byte): (bits: seq<bool>)
    ensures |bits| == 8
  {
    Unpack(Wide(b), 8)
  }

  /** The bits of a message in transmission order. */
  function Bits(s: seq<byte>): (bits: seq<bool>)
    ensures |bits| == 8 * |s|
    decreases |s|
  {
    if s == [] then [] else Bits(s[..|s| - 1]) + BitsOf(s[|s| - 1])
  }

  lemma {:induction false} UnpackSnoc(p: bv16, n: nat)
    ensures Unpack(p, n + 1) == Unpack(p, n) + [Lsb(ShiftOut(p, n))]
    decreases n
  {
    if n > 0 {
      UnpackSnoc(Half(p), n - 1);
    }
  }

  lemma {:induction false} UnpackPlus(p: bv16, n: nat, k: nat)
    ensures Unpack(p, n + k) == Unpack(p, n) + Unpack(ShiftOut(p, n), k)
    decreases n
  {
    if n > 0 {
      UnpackPlus(Half(p), n - 1, k);
    }
  }

  lemma {:induction false} UnpackZero(n: nat)
    ensures Unpack(0, n) == Zeros(n) && ShiftOut(0, n) == 0
    decreases n
  {
    if n > 0 {
      UnpackZero(n - 1);
    }
  }

  lemma ByteShiftsOut(x: bv16)
    ensures ShiftOut(x, 8) == x >> 8
  {
    var a := Half(Half(x));
    var b := Half(Half(a));
    var c := Half(Half(b));
    assert ShiftOut(x, 8) == ShiftOut(a, 6);
    assert ShiftOut(a, 6) == ShiftOut(b, 4);
    assert ShiftOut(b, 4) == ShiftOut(c, 2);
    assert ShiftOut(c, 2) == Half(Half(c));
  }

  lemma {:induction false} ShiftOutPlus(p: bv16, n: nat, k: nat)
    ensures ShiftOut(p, n + k) == ShiftOut(ShiftOut(p, n), k)
    decreases n
  {
    if n > 0 {
      ShiftOutPlus(Half(p), n - 1, k);
    }
  }

  lemma WordShiftsOut(x: bv16)
    ensures ShiftOut(x, 16) == 0
  {
    ShiftOutPlus(x, 8, 8);
    ByteShiftsOut(x);
    ByteShiftsOut(x >> 8);
  }

  lemma HalveSum(c: bv16, d: bv16, x: bv16)
    requires x == c ^ d
    ensures Lsb(x) == (Lsb(c) != Lsb(d))
    ensures Half(x) == Half(c) ^ Half(d)
  {
  }

  lemma {:induction false} UnpackOfSum(c: bv16, d: bv16, x: bv16, n: nat)
    requires x == c ^ d
    ensures Unpack(x, n) == Xor(Unpack(c, n), Unpack(d, n))
    decreases n
  {
    if n > 0 {
      HalveSum(c, d, x);
      UnpackOfSum(Half(c), Half(d), Half(x), n - 1);
      XorCons(Lsb(c), Unpack(Half(c), n - 1), Lsb(d), Unpack(Half(d), n - 1));
    }
  }

  lemma SameHalves(c: bv16, d: bv16)
    requires Half(c) == Half(d) && Lsb(c) == Lsb(d)
    ensures c == d
  {
  }

  lemma UnpackHead(c: bv16, d: bv16, n: nat)
    requires n > 0 && Unpack(c, n) == Unpack(d, n)
    ensures Lsb(c) == Lsb(d) && Unpack(Half(c), n - 1) == Unpack(Half(d), n - 1)
  {
    assert Unpack(c, n)[0] == Lsb(c) && Unpack(d, n)[0] == Lsb(d);
    assert Unpack(c, n)[1..] == Unpack(Half(c), n - 1) && Unpack(d, n)[1..] == Unpack(Half(d), n - 1);
  }

  lemma {:induction false} UnpackInjective(c: bv16, d: bv16, n: nat)
    requires Unpack(c, n) == Unpack(d, n) && ShiftOut(c, n) == ShiftOut(d, n)
    ensures c == d
    decreases n
  {
    if n > 0 {
      UnpackHead(c, d, n);
      UnpackInjective(Half(c), Half(d), n - 1);
      SameHalves(c, d);
    }
  }

  lemma RegInjective(c: bv16, d: bv16)
    requires Reg(c) == Reg(d)
    ensures c == d
  {
    WordShiftsOut(c);
    WordShiftsOut(d);
    UnpackInjective(c, d, 16);
  }

  lemma UnpackStep(p: bv16, q: bv16, n: nat)
    requires n > 0 && q == Half(p)
    ensures Unpack(p, n) == [Lsb(p)] + Unpack(q, n - 1) && ShiftOut(p, n) == ShiftOut(q, n - 1)
  {
  }

  lemma FourZeros(p: bv16, q: bv16)
    requires p & 0xF == 0 && q == p >> 4
    ensures Unpack(p, 4) == Zeros(4) && ShiftOut(p, 4) == q
  {
    var a := Half(p);
    var b := Half(a);
    var c := Half(b);
    UnpackStep(p, a, 4);
    UnpackStep(a, b, 3);
    UnpackStep(b, c, 2);
    UnpackStep(c, q, 1);
  }

  lemma ThreeBits(p: bv16)
    requires p == 0x5
    ensures Unpack(p, 3) == [true, false, true]
  {
    var a := Half(p);
    var b := Half(a);
    var c := Half(b);
    UnpackStep(p, a, 3);
    UnpackStep(a, b, 2);
    UnpackStep(b, c, 1);
  }

  lemma TapsWithoutTop(h: bv16, i: bv16, j: bv16, k: bv16)
    requires h == 0x5000 && i == 0x500 && j == 0x50 && k == 0x5
    ensures Unpack(h, 15) == Zeros(12) + [true, false, true]
  {
    FourZeros(h, i);
    FourZeros(i, j);
    FourZeros(j, k);
    UnpackPlus(h, 4, 11);
    UnpackPlus(i, 4, 7);
    UnpackPlus(j, 4, 3);
    ThreeBits(k);
    assert Zeros(12) == Zeros(4) + Zeros(4) + Zeros(4);
  }

  lemma TapsRegister(c: bv16)
    requires c == 0xA001
    ensures Reg(c) == TAPS
  {
    var h := Half(c);
    UnpackStep(c, h, 16);
    TapsWithoutTop(h, 0x500, 0x50, 0x5);
  }

  lemma LowZeros(p: bv16)
    requires p & 0xFF == 0
    ensures Unpack(p, 8) == Zeros(8)
  {
    FourZeros(p, p >> 4);
    FourZeros(p >> 4, p >> 8);
    UnpackPlus(p, 4, 4);
  }

  lemma RegOfShift(c: bv16)
    ensures Reg(Half(c)) == Reg(c)[1..] + [false]
  {
    UnpackStep(c, Half(c), 17);
    UnpackSnoc(c, 16);
    WordShiftsOut(c);
    hide Unpack, ShiftOut, Half;
    assert Unpack(c, 17)[1..] == Reg(Half(c));
  }

  /** One pass of the inner loop is one shift of the register. */
  lemma RegOfStep(c: bv16)
    ensures Reg(Step(c)) == Shift(Reg(c))
  {
    RegOfShift(c);
    if c & 1 == 1 {
      UnpackOfSum(Half(c), 0xA001, Step(c), 16);
      TapsRegister(0xA001);
    }
  }

  lemma {:induction false} RegOfSteps(c: bv16, n: nat)
    ensures Reg(Steps(c, n)) == Shifts(Reg(c), n)
    decreases n
  {
    if n > 0 {
      RegOfStep(c);
      RegOfSteps(Step(c), n - 1);
    }
  }

  lemma ByteAsBv(b: byte)
    ensures Wide(b) >> 8 == 0
    ensures (b as bv8) as bv16 == Wide(b)
  {
  }

  lemma RegOfByte(b: byte)
    ensures Reg(Wide(b)) == BitsOf(b) + Zeros(8)
  {
    UnpackPlus(Wide(b), 8, 8);
    ByteShiftsOut(Wide(b));
    ByteAsBv(b);
    UnpackZero(8);
  }

  lemma RegOfXor(c: bv16, d: bv16, x: bv16)
    requires x == c ^ d
    ensures Reg(x) == Xor(Reg(c), Reg(d))
  {
    UnpackOfSum(c, d, x, 16);
  }

  lemma RegOfSum(c: bv16, b: byte, x: bv16)
    requires x == c ^ Wide(b)
    ensures Reg(Steps(x, 8)) == Feed(Reg(c), BitsOf(b))
  {
    hide Wide, BitsOf, Reg, Feed, Steps, Shifts;
    RegOfByte(b);
    RegOfXor(c, Wide(b), x);
    RegOfSteps(x, 8);
    ShiftsAbsorb(Reg(c), BitsOf(b));
  }

  lemma RegOfFeed(c: bv16, b: byte, d: bv16)
    requires d == FeedByte(c, b)
    ensures Reg(d) == Feed(Reg(c), BitsOf(b))
  {
    RegOfSum(c, b, c ^ Wide(b));
  }

  /** The byte-wise loop clocks the register with the message bits, least significant first. */
  lemma {:induction false} CrcIsRegister(c: bv16, s: seq<byte>)
    ensures Reg(CrcFrom(c, s)) == Feed(Reg(c), Bits(s))
    decreases |s|
  {
    if s != [] {
      var t, b := s[..|s| - 1], s[|s| - 1];
      var d := CrcFrom(c, t);
      CrcIsRegister(c, t);
      FeedAppend(Reg(c), Bits(t), BitsOf(b));
      RegOfFeed(d, b, CrcFrom(c, s));
    }
  }

  lemma NarrowWide(x: bv8, y: bv8)
    requires x as bv16 == y as bv16
    ensures x == y
  {
  }

  /** An octet is determined by its eight bits. */
  lemma SameBitsSameOctet(a: byte, b: byte)
    requires BitsOf(a) == BitsOf(b)
    ensures a == b
  {
    RegOfByte(a);
    RegOfByte(b);
    RegInjective(Wide(a), Wide(b));
    ByteAsBv(a);
    ByteAsBv(b);
    NarrowWide(Narrow(a), Narrow(b));
    ValueOfByte(a);
    ValueOfByte(b);
  }

  lemma LastOctet(s: seq<byte>, n: nat)
    requires |s| == n + 1
    ensures Bits(s)[..8 * n] == Bits(s[..n]) && Bits(s)[8 * n..] == BitsOf(s[n])
  {
  }

  lemma SameEnds(s: seq<byte>, t: seq<byte>, n: nat)
    requires |s| == |t| == n + 1 && s[..n] == t[..n] && s[n] == t[n]
    ensures s == t
  {
    assert s == s[..n] + [s[n]] && t == t[..n] + [t[n]];
  }

  /** A message is determined by its bits. */
  lemma {:induction false} BitsInjective(s: seq<byte>, t: seq<byte>)
    requires |s| == |t| && Bits(s) == Bits(t)
    ensures s == t
    decreases |s|
  {
    hide Bits, BitsOf;
    if s != [] {
      var n := |s| - 1;
      LastOctet(s, n);
      LastOctet(t, n);
      BitsInjective(s[..n], t[..n]);
      SameBitsSameOctet(s[n], t[n]);
      SameEnds(s, t, n);
    }
  }

  // ---------- Every bit string is that of a message ----------

  function Pow2(n: nat): nat {
    if n == 0 then 1 else 2 * Pow2(n - 1)
  }

  /** The number with these binary digits, least significant first. */
  function FromDigits(bits: seq<bool>): (b: nat)
    ensures b < Pow2(|bits|)
    decreases |bits|
  {
    if bits == [] then 0 else (if bits[0] then 1 else 0) + 2 * FromDigits(bits[1..])
  }

  lemma OctetFits(bits: seq<bool>)
    requires |bits| == 8
    ensures FromDigits(bits) < 0x100
  {
    assert Pow2(8) == 0x100;
  }

  function Widened(x: bv8): bv16 { x as bv16 }

  lemma WideIsWidened(b: byte)
    ensures Wide(b) == Widened(Narrow(b))
  {
  }

  lemma HalfOfWidened(x: bv8)
    ensures Half(Widened(x)) == Widened(Halved(x)) && Lsb(Widened(x)) == Lowest(x)
  {
  }

  lemma HalfOfOctet(b: byte)
    ensures Half(Wide(b)) == Wide(b / 2) && Lsb(Wide(b)) == (b % 2 == 1)
  {
    hide Wide, Widened, Narrow, Halved, Lowest, Half, Lsb;
    WideIsWidened(b);
    WideIsWidened(b / 2);
    HalfOfWidened(Narrow(b));
    HalfOfByte(b);
  }

  lemma {:induction false} UnpackDigits(b: byte, bits: seq<bool>)
    requires b == FromDigits(bits)
    ensures Unpack(Wide(b), |bits|) == bits
    decreases |bits|
  {
    hide Lsb, Half, Wide;
    if bits != [] {
      HalfOfOctet(b);
      assert b / 2 == FromDigits(bits[1..]) && (b % 2 == 1) == bits[0];
      UnpackDigits(b / 2, bits[1..]);
    }
  }

  lemma BitsOfOctet(b: byte)
    ensures BitsOf(b) == Unpack(Wide(b), 8)
  {
  }

  lemma BitsSnoc(s: seq<byte>, b: byte)
    ensures Bits(s + [b]) == Bits(s) + BitsOf(b)
  {
    assert (s + [b])[..|s|] == s;
  }

  /** The message with the given bits. */
  lemma {:induction false} MessageOf(bits: seq<bool>, n: nat) returns (s: seq<byte>)
    requires |bits| == 8 * n
    ensures |s| == n && Bits(s) == bits
    decreases n
  {
    s := [];
    if n > 0 {
      hide Bits, BitsOf, FromDigits, Unpack;
      var front, last := bits[..8 * (n - 1)], bits[8 * (n - 1)..];
      var t := MessageOf(front, n - 1);
      OctetFits(last);
      UnpackDigits(FromDigits(last), last);
      s := t + [FromDigits(last)];
      BitsOfOctet(FromDigits(last));
      BitsSnoc(t, FromDigits(last));
      assert front + last == bits;
    }
  }
}
