// What the CRC appended by _rtu_check_send_pre and compared by _rtu_check_wait_request detects.

module Integrity {
  import opened Bytes
  import opened Gf2
  import Division
  import opened Crc

  function Join(l: bv16, h: bv16): bv16 { (l & 0xFF) + (h << 8) }

  /** The uint16_t the receiver assembles from the last two octets of a frame. */
  function Received(lo: byte, hi: byte): bv16 {
    Join(Wide(lo), Wide(hi))
  }

  function CrcLow(c: bv16): byte { (c & 0x00FF) as int }

  function CrcHigh(c: bv16): byte { (c >> 8) as int }

  /** A body with its CRC appended, low octet first. */
  function Sealed(body: seq<byte>): (frame: seq<byte>)
    ensures |frame| == |body| + 2
  {
    body + [CrcLow(Checksum(body)), CrcHigh(Checksum(body))]
  }

  /** The comparison both RTU checkers make. */
  predicate CrcMatches(frame: seq<byte>)
    requires |frame| >= 2
  {
    var n := |frame|;
    Checksum(frame[..n - 2]) == Received(frame[n - 2], frame[n - 1])
  }

  lemma RoundTripLow(c: bv16)
    ensures Wide(CrcLow(c)) == c & 0x00FF
  {
    RoundTrip16(c & 0x00FF);
  }

  lemma RoundTripHigh(c: bv16)
    ensures Wide(CrcHigh(c)) == c >> 8
  {
    RoundTrip16(c >> 8);
  }

  lemma RoundTrip16(c: bv16)
    requires c < 0x100
    ensures 0 <= c as int < 0x100 && (c as int) as bv16 == c
  {
  }

  lemma Rejoin(c: bv16, lo: bv16, hi: bv16)
    requires lo == c & 0x00FF && hi == c >> 8
    ensures (lo & 0xFF) + (hi << 8) == c
  {
  }

  lemma ReceivedIsSent(c: bv16)
    ensures Received(CrcLow(c), CrcHigh(c)) == c
  {
    RoundTripLow(c);
    RoundTripHigh(c);
    Rejoin(c, Wide(CrcLow(c)), Wide(CrcHigh(c)));
  }

  /** Every frame finished by the sender passes the comparison. */
  lemma SealedMatches(body: seq<byte>)
    ensures CrcMatches(Sealed(body))
  {
    assert Sealed(body)[..|body|] == body;
    ReceivedIsSent(Checksum(body));
  }

  // ---------- The residue ----------

  function Raised(h: bv16): bv16 { h << 8 }

  lemma JoinIsSum(l: bv16, h: bv16, p: bv16)
    requires l < 0x100 && h < 0x100 && p == Raised(h)
    ensures Join(l, h) == l ^ p && p >> 8 == h && p & 0xFF == 0
  {
  }

  lemma ByteBelow(b: byte)
    ensures Wide(b) < 0x100
  {
  }

  lemma RegOfHighByte(hi: byte, p: bv16)
    requires p >> 8 == Wide(hi) && p & 0xFF == 0
    ensures Reg(p) == Zeros(8) + BitsOf(hi)
  {
    UnpackPlus(p, 8, 8);
    LowZeros(p);
    ByteShiftsOut(p);
  }

  lemma XorHalves(a: seq<bool>, b: seq<bool>)
    requires |a| == |b| == 8
    ensures Xor(a + Zeros(8), Zeros(8) + b) == a + b
  {
  }

  lemma RegOfJoin(l: bv16, p: bv16, x: bv16, lo: byte, hi: byte)
    requires x == l ^ p
    requires Reg(l) == BitsOf(lo) + Zeros(8) && Reg(p) == Zeros(8) + BitsOf(hi)
    ensures Reg(x) == BitsOf(lo) + BitsOf(hi)
  {
    UnpackOfSum(l, p, x, 16);
    XorHalves(BitsOf(lo), BitsOf(hi));
  }

  lemma ReceivedIsSum(lo: byte, hi: byte, p: bv16)
    requires p == Raised(Wide(hi))
    ensures Received(lo, hi) == Wide(lo) ^ p
    ensures p >> 8 == Wide(hi) && p & 0xFF == 0
  {
    hide Wide, Join, Raised;
    ByteBelow(lo);
    ByteBelow(hi);
    JoinIsSum(Wide(lo), Wide(hi), p);
  }

  lemma RegOfReceived(lo: byte, hi: byte)
    ensures Reg(Received(lo, hi)) == BitsOf(lo) + BitsOf(hi)
  {
    hide Wide, Received, Raised, BitsOf, Reg;
    var p := Raised(Wide(hi));
    ReceivedIsSum(lo, hi, p);
    RegOfByte(lo);
    RegOfHighByte(hi, p);
    RegOfJoin(Wide(lo), p, Received(lo, hi), lo, hi);
  }

  /** The octets appended are the register, least significant bit first. */
  lemma CrcOctets(c: bv16)
    ensures BitsOf(CrcLow(c)) + BitsOf(CrcHigh(c)) == Reg(c)
  {
    ReceivedIsSent(c);
    RegOfReceived(CrcLow(c), CrcHigh(c));
  }

  lemma BitsAppend2(body: seq<byte>, lo: byte, hi: byte)
    ensures Bits(body + [lo, hi]) == Bits(body) + (BitsOf(lo) + BitsOf(hi))
  {
    hide Bits, BitsOf;
    BitsSnoc(body, lo);
    BitsSnoc(body + [lo], hi);
    assert body + [lo, hi] == body + [lo] + [hi];
  }

  lemma ZeroRegister(c: bv16)
    ensures Reg(c) == Zeros(16) <==> c == 0
  {
    UnpackZero(16);
    if Reg(c) == Zeros(16) {
      RegInjective(c, 0);
    }
  }

  lemma RegOfReceivedFrame(body: seq<byte>, lo: byte, hi: byte)
    ensures Feed(Reg(INITIAL), Bits(body + [lo, hi])) == Feed(Reg(Checksum(body)), BitsOf(lo) + BitsOf(hi))
  {
    CrcIsRegister(INITIAL, body);
    BitsAppend2(body, lo, hi);
    FeedAppend(Reg(INITIAL), Bits(body), BitsOf(lo) + BitsOf(hi));
  }

  lemma SixteenBitsToZero(c: bv16, lo: byte, hi: byte)
    ensures Feed(Reg(c), BitsOf(lo) + BitsOf(hi)) == Zeros(16) <==> c == Received(lo, hi)
  {
    hide Received, Feed, Reg, BitsOf;
    var w := BitsOf(lo) + BitsOf(hi);
    RegOfReceived(lo, hi);
    WindowInjective(Reg(c), w);
    assert w + Zeros(0) == w;
    SumIsZero(Reg(c), w);
    if Reg(c) == w {
      RegInjective(c, Received(lo, hi));
    }
  }

  lemma MatchIsZeroRegister(frame: seq<byte>)
    requires |frame| >= 2
    ensures CrcMatches(frame) <==> Feed(Reg(INITIAL), Bits(frame)) == Zeros(16)
  {
    var n := |frame|;
    var body, lo, hi := frame[..n - 2], frame[n - 2], frame[n - 1];
    assert frame == body + [lo, hi];
    RegOfReceivedFrame(body, lo, hi);
    SixteenBitsToZero(Checksum(body), lo, hi);
  }

  /** The comparison succeeds exactly when the CRC of the whole frame, CRC octets included, is zero. */
  lemma ResidueIsZero(frame: seq<byte>)
    requires |frame| >= 2
    ensures CrcMatches(frame) <==> Checksum(frame) == 0
  {
    MatchIsZeroRegister(frame);
    CrcIsRegister(INITIAL, frame);
    ZeroRegister(Checksum(frame));
  }

  // ---------- Linearity ----------

  lemma RoundTrip8(x: bv8)
    ensures (x as int) as bv8 == x
  {
  }

  function XorByte(a: byte, b: byte): byte {
    ((a as bv8) ^ (b as bv8)) as int
  }

  function XorMessages(s: seq<byte>, t: seq<byte>): (r: seq<byte>)
    requires |s| == |t|
    ensures |r| == |s|
  {
    seq(|s|, i requires 0 <= i < |s| => XorByte(s[i], t[i]))
  }

  lemma WidenXor(x: bv8, y: bv8)
    ensures (x ^ y) as bv16 == (x as bv16) ^ (y as bv16)
  {
  }

  lemma XorByteAsBv(a: byte, b: byte)
    ensures Wide(XorByte(a, b)) == Wide(a) ^ Wide(b)
  {
    RoundTrip8((a as bv8) ^ (b as bv8));
    WidenXor(a as bv8, b as bv8);
    ByteAsBv(a);
    ByteAsBv(b);
    ByteAsBv(XorByte(a, b));
  }

  lemma BitsOfXorByte(a: byte, b: byte)
    ensures BitsOf(XorByte(a, b)) == Xor(BitsOf(a), BitsOf(b))
  {
    XorByteAsBv(a, b);
    UnpackOfSum(Wide(a), Wide(b), Wide(XorByte(a, b)), 8);
  }

  lemma XorAppend(a: seq<bool>, b: seq<bool>, c: seq<bool>, d: seq<bool>)
    requires |a| == |c| && |b| == |d|
    ensures Xor(a + b, c + d) == Xor(a, c) + Xor(b, d)
  {
  }

  lemma {:induction false} BitsOfXor(s: seq<byte>, t: seq<byte>)
    requires |s| == |t|
    ensures Bits(XorMessages(s, t)) == Xor(Bits(s), Bits(t))
    decreases |s|
  {
    if s != [] {
      var n := |s| - 1;
      var d := XorMessages(s, t);
      assert d[..n] == XorMessages(s[..n], t[..n]);
      BitsOfXor(s[..n], t[..n]);
      BitsOfXorByte(s[n], t[n]);
      XorAppend(Bits(s[..n]), BitsOf(s[n]), Bits(t[..n]), BitsOf(t[n]));
    }
  }

  /** Two runs from one initial register differ by what the error does to the zero register. */
  lemma SumOfRuns(r: Register, m: seq<bool>, n: seq<bool>)
    requires |m| == |n|
    ensures Xor(Feed(r, m), Feed(r, n)) == Feed(Zeros(16), Xor(m, n))
  {
    FeedLinear(r, r, m, n);
    SumIsZero(r, r);
  }

  /** The XOR of the CRCs of two messages of one length is the zero-initialised CRC of their XOR. */
  lemma CrcIsLinear(s: seq<byte>, t: seq<byte>)
    requires |s| == |t|
    ensures Checksum(s) ^ Checksum(t) == CrcFrom(0, XorMessages(s, t))
  {
    var sum, e := Checksum(s) ^ Checksum(t), CrcFrom(0, XorMessages(s, t));
    assert Reg(sum) == Feed(Zeros(16), Xor(Bits(s), Bits(t))) by {
      RegOfXor(Checksum(s), Checksum(t), sum);
      CrcIsRegister(INITIAL, s);
      CrcIsRegister(INITIAL, t);
      SumOfRuns(Reg(INITIAL), Bits(s), Bits(t));
    }
    assert Reg(e) == Feed(Zeros(16), Xor(Bits(s), Bits(t))) by {
      CrcIsRegister(0, XorMessages(s, t));
      BitsOfXor(s, t);
      UnpackZero(16);
    }
    RegInjective(sum, e);
  }

  // ---------- The remainder ----------

  lemma FourOnes(p: bv16, q: bv16)
    requires p & 0xF == 0xF && q == p >> 4
    ensures Unpack(p, 4) == [true, true, true, true] && ShiftOut(p, 4) == q
  {
    var a := Half(p);
    var b := Half(a);
    var c := Half(b);
    UnpackStep(p, a, 4);
    UnpackStep(a, b, 3);
    UnpackStep(b, c, 2);
    UnpackStep(c, q, 1);
  }

  lemma EightOnes(p: bv16, q: bv16, r: bv16)
    requires p & 0xFF == 0xFF && q == p >> 4 && r == p >> 8
    ensures Unpack(p, 8) == [true, true, true, true] + [true, true, true, true]
  {
    FourOnes(p, q);
    FourOnes(q, r);
    UnpackPlus(p, 4, 4);
  }

  lemma PresetHalves(c: bv16)
    requires c == 0xFFFF
    ensures Reg(c) == Unpack(c, 8) + Unpack(c >> 8, 8)
    ensures Unpack(c, 8) == [true, true, true, true] + [true, true, true, true] == Unpack(c >> 8, 8)
  {
    var h := c >> 8;
    UnpackPlus(c, 8, 8);
    ByteShiftsOut(c);
    EightOnes(c, c >> 4, h);
    EightOnes(h, h >> 4, h >> 8);
  }

  /** The register is preset to sixteen ones. */
  lemma PresetToOnes()
    ensures Reg(INITIAL) == seq(16, _ => true)
  {
    PresetHalves(INITIAL);
  }

  /**
   * The CRC is the remainder of long division by x^16 + x^15 + x^2 + 1 of the message followed by sixteen
   * zeros, its first sixteen bits inverted, and no other word is: c is the CRC of the message exactly when
   * that dividend is a multiple of the generator plus the bits of c.
   */
  lemma CrcIsRemainder(s: seq<byte>, c: bv16)
    ensures var dividend := Division.Dividend(seq(16, _ => true), Bits(s));
            c == Checksum(s) <==> exists q :: Division.IsDivision(dividend, q, Reg(c))
  {
    PresetToOnes();
    CrcIsRegister(INITIAL, s);
    Division.RemainderIsRegister(Reg(INITIAL), Bits(s), Reg(c));
    if Reg(c) == Reg(Checksum(s)) {
      RegInjective(c, Checksum(s));
    }
  }

  // ---------- What the preset is for ----------

  lemma ZeroOctet(c: bv16)
    requires c == INITIAL
    ensures Steps(c, 8) == 0x40BF
  {
    hide Steps;
    Eight(c, 0xDFFE, 0x6FFF, 0x97FE, 0x4BFF, 0x85FE, 0x42FF, 0x817E, 0x40BF);
  }

  lemma Eight(a: bv16, b: bv16, c: bv16, d: bv16, e: bv16, f: bv16, g: bv16, h: bv16, i: bv16)
    requires Step(a) == b && Step(b) == c && Step(c) == d && Step(d) == e
    requires Step(e) == f && Step(f) == g && Step(g) == h && Step(h) == i
    ensures Steps(a, 8) == i
  {
    hide Step;
    assert Steps(e, 4) == Steps(i, 0);
    assert Steps(a, 8) == Steps(e, 4);
  }

  lemma ChecksumOfOne(b: byte, x: bv16)
    requires x == INITIAL ^ Wide(b)
    ensures Checksum([b]) == Steps(x, 8)
  {
    ChecksumOfNothing();
    ChecksumExtend(INITIAL, [], b, x);
    assert [] + [b] == [b];
  }

  lemma BitsAppendOne(s: seq<byte>, u: seq<byte>, b: byte)
    requires Bits(s + u) == Bits(s) + Bits(u)
    ensures Bits(s + (u + [b])) == Bits(s) + Bits(u + [b])
  {
    hide Bits, BitsOf;
    assert s + (u + [b]) == (s + u) + [b];
    BitsSnoc(s + u, b);
    BitsSnoc(u, b);
  }

  lemma BitsAppendNone(s: seq<byte>, t: seq<byte>)
    requires t == []
    ensures Bits(s + t) == Bits(s) + Bits(t)
  {
    assert s + t == s && Bits(t) == [];
  }

  lemma {:induction false} BitsAppend(s: seq<byte>, t: seq<byte>)
    ensures Bits(s + t) == Bits(s) + Bits(t)
    decreases |t|
  {
    hide Bits;
    if t == [] {
      BitsAppendNone(s, t);
    } else {
      var u, b := t[..|t| - 1], t[|t| - 1];
      BitsAppend(s, u);
      BitsAppendOne(s, u, b);
      assert u + [b] == t;
    }
  }

  lemma ZeroChanges()
    ensures Checksum([0]) == 0x40BF && Checksum([0]) != INITIAL
  {
    XorZeroWord(INITIAL);
    ChecksumOfOne(0, INITIAL);
    ZeroOctet(INITIAL);
  }

  lemma XorZeroWord(c: bv16)
    ensures c ^ Wide(0) == c
  {
  }

  /** A zero octet in front of a message changes its CRC. With a register preset to zero none would. */
  lemma LeadingZeroSeen(s: seq<byte>)
    ensures Checksum([0] + s) != Checksum(s)
  {
    if Checksum([0] + s) == Checksum(s) {
      var r := Reg(INITIAL);
      CrcIsRegister(INITIAL, [0] + s);
      CrcIsRegister(INITIAL, s);
      CrcIsRegister(INITIAL, [0]);
      BitsAppend([0], s);
      FeedAppend(r, Bits([0]), Bits(s));
      FeedInjective(Feed(r, Bits([0])), r, Bits(s));
      RegInjective(Checksum([0]), INITIAL);
      ZeroChanges();
    }
  }

  lemma ExampleFirst(x: bv16)
    requires x == 0xFFFF ^ Wide(0x02)
    ensures Steps(x, 8) == 0x813E
  {
    hide Steps;
    Eight(x, 0xDFFF, 0xCFFE, 0x67FF, 0x93FE, 0x49FF, 0x84FE, 0x427F, 0x813E);
  }

  lemma ExampleSecond(y: bv16)
    requires y == 0x813E ^ Wide(0x07)
    ensures Steps(y, 8) == 0x1241
  {
    hide Steps;
    Eight(y, 0xE09D, 0xD04F, 0xC826, 0x6413, 0x9208, 0x4904, 0x2482, 0x1241);
  }

  /** The example of section 6.2.2 of MODBUS over Serial Line V1.02: 02 07 has the CRC 1241, sent 41 12. */
  lemma StandardExample()
    ensures Checksum([0x02, 0x07]) == 0x1241
  {
    hide Steps, Checksum;
    var x, y := INITIAL ^ Wide(0x02), 0x813E ^ Wide(0x07);
    ChecksumOfOne(0x02, x);
    ExampleFirst(x);
    ChecksumExtend(0x813E, [0x02], 0x07, y);
    ExampleSecond(y);
    assert [0x02] + [0x07] == [0x02, 0x07];
  }

  // ---------- Error detection ----------

  /** If one frame passes, another passes exactly when the error between them leaves no trace. */
  lemma ErrorPasses(f: seq<byte>, g: seq<byte>)
    requires |f| == |g| >= 2 && CrcMatches(f)
    ensures CrcMatches(g) <==> Feed(Zeros(16), Xor(Bits(f), Bits(g))) == Zeros(16)
  {
    MatchIsZeroRegister(f);
    MatchIsZeroRegister(g);
    SumOfRuns(Reg(INITIAL), Bits(f), Bits(g));
    SumIsZero(Zeros(16), Feed(Reg(INITIAL), Bits(g)));
  }

  lemma SumZeroSame(a: seq<bool>, b: seq<bool>)
    requires |a| == |b| && Xor(a, b) == Zeros(|a|)
    ensures a == b
  {
    forall k | 0 <= k < |a| ensures a[k] == b[k] {
      assert !Xor(a, b)[k];
    }
  }

  /** Two bit strings that differ only inside sixteen consecutive places differ by a padded window. */
  lemma WindowOfDifference(a: seq<bool>, b: seq<bool>, at: nat) returns (i: nat, w: seq<bool>, j: nat)
    requires |a| == |b|
    requires forall k :: 0 <= k < |a| && !(at <= k < at + 16) ==> a[k] == b[k]
    ensures |w| <= 16 && Xor(a, b) == Zeros(i) + w + Zeros(j)
  {
    var d := Xor(a, b);
    i := if at <= |d| then at else |d|;
    var e := if i + 16 <= |d| then i + 16 else |d|;
    w := d[i..e];
    j := |d| - e;
  }

  /** Two frames that differ only inside sixteen consecutive bits cannot both pass. */
  lemma BurstDetected(f: seq<byte>, g: seq<byte>, at: nat)
    requires |f| == |g| >= 2 && f != g
    requires forall k :: 0 <= k < 8 * |f| && !(at <= k < at + 16) ==> Bits(f)[k] == Bits(g)[k]
    ensures !(CrcMatches(f) && CrcMatches(g))
  {
    hide CrcMatches, Bits, Feed;
    if CrcMatches(f) && CrcMatches(g) {
      var i, w, j := WindowOfDifference(Bits(f), Bits(g), at);
      ErrorPasses(f, g);
      PaddingIsInvisible(i, w, j);
      WindowFromZero(Zeros(16), w);
      assert Zeros(i) + Zeros(|w|) + Zeros(j) == Zeros(8 * |f|);
      SumZeroSame(Bits(f), Bits(g));
      BitsInjective(f, g);
    }
  }

  lemma GeneratorLeavesNoTrace()
    ensures Feed(Zeros(16), Division.GENERATOR) == Zeros(16)
  {
    assert Clock(Zeros(16), true) == TAPS;
    assert Division.GENERATOR[1..] == TAPS;
    WindowInjective(TAPS, TAPS);
    assert TAPS + Zeros(0) == TAPS;
    SumIsZero(TAPS, TAPS);
  }

  lemma XorUndone(a: seq<bool>, e: seq<bool>)
    requires |a| == |e|
    ensures Xor(a, Xor(a, e)) == e
  {
  }

  /** The frame that differs from another in exactly the given bits. */
  lemma Flipped(f: seq<byte>, e: seq<bool>) returns (g: seq<byte>)
    requires |e| == 8 * |f|
    ensures |g| == |f| && Xor(Bits(f), Bits(g)) == e
  {
    g := MessageOf(Xor(Bits(f), e), |f|);
    XorUndone(Bits(f), e);
  }

  lemma GeneratorEscapes(f: seq<byte>, g: seq<byte>, i: nat, j: nat)
    requires |f| == |g| >= 2 && CrcMatches(f)
    requires Xor(Bits(f), Bits(g)) == Zeros(i) + Division.GENERATOR + Zeros(j)
    ensures f != g && CrcMatches(g)
  {
    GeneratorLeavesNoTrace();
    PaddingIsInvisible(i, Division.GENERATOR, j);
    ErrorPasses(f, g);
    assert Xor(Bits(f), Bits(g))[i];
  }

  /**
   * Sixteen is the exact limit: in every frame that passes, at every place, there is an error inside
   * seventeen consecutive bits with which it passes too. It has the pattern of the generator.
   */
  lemma SeventeenBitsEscape(f: seq<byte>, i: nat) returns (g: seq<byte>)
    requires |f| >= 2 && CrcMatches(f) && i + 17 <= 8 * |f|
    ensures |g| == |f| && g != f && CrcMatches(g)
    ensures Xor(Bits(f), Bits(g)) == Zeros(i) + Division.GENERATOR + Zeros(8 * |f| - 17 - i)
    ensures forall k :: 0 <= k < 8 * |f| && !(i <= k < i + 17) ==> Bits(f)[k] == Bits(g)[k]
  {
    var j := 8 * |f| - 17 - i;
    var e := Zeros(i) + Division.GENERATOR + Zeros(j);
    g := Flipped(f, e);
    GeneratorEscapes(f, g, i, j);
    forall k | 0 <= k < 8 * |f| && !(i <= k < i + 17) ensures Bits(f)[k] == Bits(g)[k] {
      assert !e[k] && Xor(Bits(f), Bits(g))[k] == e[k];
    }
  }

  /** The preset register is even: it is one half twice. */
  lemma OddInitial(c: bv16)
    requires c == INITIAL
    ensures !Odd(Reg(c))
  {
    PresetHalves(c);
    OnesAppend(Unpack(c, 8), Unpack(c >> 8, 8));
  }

  /** A frame that passes has an even number of ones. */
  lemma PassingIsEven(frame: seq<byte>)
    requires |frame| >= 2 && CrcMatches(frame)
    ensures !Odd(Bits(frame))
  {
    hide Feed, Bits, Reg, CrcMatches;
    var r := Reg(INITIAL);
    assert Feed(r, Bits(frame)) == Zeros(16) by {
      MatchIsZeroRegister(frame);
    }
    FeedParity(r, Bits(frame));
    OddInitial(INITIAL);
    OnesOfZeros(16);
  }

  /** Flipping an odd number of bits of a frame that passes makes it fail. */
  lemma OddErrorDetected(f: seq<byte>, g: seq<byte>)
    requires |f| == |g| >= 2 && CrcMatches(f)
    requires Odd(Xor(Bits(f), Bits(g)))
    ensures !CrcMatches(g)
  {
    if CrcMatches(g) {
      PassingIsEven(f);
      PassingIsEven(g);
      OddOfSum(Bits(f), Bits(g));
    }
  }
}
