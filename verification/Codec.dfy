// The data codecs of src/small_modbus_utils.c: register byte order, packed coils, quantity limits.

module Codec {
  import opened Bytes

  const MAX_READ_BITS: nat := 2000
  const MAX_WRITE_BITS: nat := 1968
  const MAX_READ_REGISTERS: nat := 125
  const MAX_WRITE_REGISTERS: nat := 123

  const READ_COILS: byte := 0x01
  const READ_INPUTS: byte := 0x02
  const READ_HOLDING: byte := 0x03
  const READ_INPUT_REGISTERS: byte := 0x04
  const WRITE_COIL: byte := 0x05
  const WRITE_REGISTER: byte := 0x06
  const READ_EXCEPTION_STATUS: byte := 0x07
  const WRITE_COILS: byte := 0x0F
  const WRITE_REGISTERS: byte := 0x10
  const REPORT_SLAVE_ID: byte := 0x11
  const MASK_WRITE_REGISTER: byte := 0x16
  const WRITE_AND_READ_REGISTERS: byte := 0x17

  /** modbus_check_addr_num. The address takes no part in the decision. */
  predicate CheckAddrNum(function_: byte, addr: word, num: word) {
    if function_ == READ_COILS || function_ == READ_INPUTS then 0 < num <= MAX_READ_BITS
    else if function_ == READ_HOLDING || function_ == READ_INPUT_REGISTERS then 0 < num <= MAX_READ_REGISTERS
    else if function_ == WRITE_COILS then 0 < num <= MAX_WRITE_BITS
    else if function_ == WRITE_REGISTERS then 0 < num <= MAX_WRITE_REGISTERS
    else function_ == WRITE_COIL || function_ == WRITE_REGISTER
  }

  predicate IsBitFunction(function_: byte) {
    function_ == READ_COILS || function_ == READ_INPUTS || function_ == WRITE_COIL || function_ == WRITE_COILS
  }

  /** Octets that hold n packed bits. */
  function BitBytes(n: nat): nat { n / 8 + (if n % 8 != 0 then 1 else 0) }

  // ---------- Registers ----------

  /** The bytes of s with the two of every pair exchanged. */
  function SwapPairs(s: seq<byte>): (r: seq<byte>)
    requires |s| % 2 == 0
    ensures |r| == |s|
  {
    seq(|s|, i requires 0 <= i < |s| => if i % 2 == 0 then s[i + 1] else s[i - 1])
  }

  lemma PairAt(s: seq<byte>, i: nat)
    requires |s| % 2 == 0 && 2 * i + 1 < |s|
    ensures SwapPairs(s)[2 * i] == s[2 * i + 1] && SwapPairs(s)[2 * i + 1] == s[2 * i]
  {
  }

  /** Host to wire and wire to host undo each other. */
  lemma SwapTwice(s: seq<byte>)
    requires |s| % 2 == 0
    ensures SwapPairs(SwapPairs(s)) == s
  {
    var t := SwapPairs(s);
    forall i | 0 <= i < |s| ensures SwapPairs(t)[i] == s[i] {
      PairAt(s, i / 2);
      PairAt(t, i / 2);
    }
  }

  /** The buffer, or any other sequence, with `data` written over it from position `at`. */
  function Overwrite<T>(s: seq<T>, at: nat, data: seq<T>): (r: seq<T>)
    requires at + |data| <= |s|
    ensures |r| == |s|
  {
    s[..at] + data + s[at + |data|..]
  }

  lemma IsOverwrite(s: seq<byte>, at: nat, data: seq<byte>, t: seq<byte>)
    requires at + |data| <= |s| == |t|
    requires forall k :: 0 <= k < at || at + |data| <= k < |s| ==> t[k] == s[k]
    requires forall k :: at <= k < at + |data| ==> t[k] == data[k - at]
    ensures t == Overwrite(s, at, data)
  {
  }

  /** Writing below the unread part of the source, or into another array, leaves that part alone. */
  predicate Apart(same: bool, d: nat, s: nat, size: nat) {
    same ==> d == s || d + size <= s || s + size <= d
  }

  /**
   * modbus_reg_h2m and modbus_reg_m2h: the two loops exchange the bytes of each register alike. Source
   * and destination are the same place, as in the slave, or do not overlap.
   */
  method SwapRegisters(dst: array<byte>, d: nat, src: array<byte>, s: nat, num: nat)
    requires num >= 1
    requires d + 2 * num <= dst.Length && s + 2 * num <= src.Length
    requires Apart(dst == src, d, s, 2 * num)
    modifies dst
    ensures dst[..] == Overwrite(old(dst[..]), d, SwapPairs(old(src[s..s + 2 * num])))
  {
    ghost var from, to := src[s..s + 2 * num], dst[..];
    ghost var swapped := SwapPairs(from);
    var i, j, n := s, d, num;
    while n > 0
      invariant 0 <= n <= num && i == s + 2 * (num - n) && j == d + 2 * (num - n)
      invariant forall k :: i <= k < s + 2 * num ==> src[k] == from[k - s]
      invariant forall k :: d <= k < j ==> dst[k] == swapped[k - d]
      invariant forall k :: 0 <= k < d || j <= k < dst.Length ==> dst[k] == to[k]
    {
      var high, low := src[i + 1], src[i];
      PairAt(from, num - n);
      dst[j] := high;
      dst[j + 1] := low;
      i, j, n := i + 2, j + 2, n - 1;
    }
    IsOverwrite(to, d, swapped, dst[..]);
  }

  /** The loop of modbus_coil_h2m and modbus_coil_m2h. */
  method CopyOctets(dst: array<byte>, d: nat, src: array<byte>, s: nat, total: nat)
    requires d + total <= dst.Length && s + total <= src.Length
    requires Apart(dst == src, d, s, total)
    modifies dst
    ensures dst[..] == Overwrite(old(dst[..]), d, old(src[s..s + total]))
  {
    ghost var from, to := src[s..s + total], dst[..];
    var i, j, n := s, d, total;
    while n > 0
      invariant 0 <= n <= total && i == s + (total - n) && j == d + (total - n)
      invariant forall k :: i <= k < s + total ==> src[k] == from[k - s]
      invariant forall k :: d <= k < j ==> dst[k] == from[k - d]
      invariant forall k :: 0 <= k < d || j <= k < dst.Length ==> dst[k] == to[k]
    {
      dst[j] := src[i];
      i, j, n := i + 1, j + 1, n - 1;
    }
    IsOverwrite(to, d, from, dst[..]);
  }

  /** modbus_coil_h2m and modbus_coil_m2h: packed bits travel in host order. */
  method CopyCoils(dst: array<byte>, d: nat, src: array<byte>, s: nat, num: nat)
    requires num >= 1
    requires d + BitBytes(num) <= dst.Length && s + BitBytes(num) <= src.Length
    requires Apart(dst == src, d, s, BitBytes(num))
    modifies dst
    ensures dst[..] == Overwrite(old(dst[..]), d, old(src[s..s + BitBytes(num)]))
  {
    CopyOctets(dst, d, src, s, num / 8 + (if num % 8 != 0 then 1 else 0));
  }

  /** aio_get_val on a little-endian host. */
  function RegisterAt(s: seq<byte>, i: nat): word
    requires 2 * i + 1 < |s|
  {
    Word(s[2 * i + 1], s[2 * i])
  }

  /** The value of register i on the wire, high byte first. */
  function WireRegisterAt(s: seq<byte>, i: nat): word
    requires 2 * i + 1 < |s|
  {
    Word(s[2 * i], s[2 * i + 1])
  }

  /** Exchanging the bytes turns host registers into wire registers of the same value and back. */
  lemma SwapKeepsValues(s: seq<byte>, i: nat)
    requires |s| % 2 == 0 && 2 * i + 1 < |s|
    ensures WireRegisterAt(SwapPairs(s), i) == RegisterAt(s, i)
    ensures RegisterAt(SwapPairs(s), i) == WireRegisterAt(s, i)
  {
    PairAt(s, i);
  }

  /** The buffer after aio_set_val; the status is cut to sixteen bits. */
  function WithRegister(s: seq<byte>, i: nat, status: int): (r: seq<byte>)
    requires 2 * i + 1 < |s|
    ensures |r| == |s|
  {
    s[2 * i := Lo(status)][2 * i + 1 := Hi(status)]
  }

  /** aio_set_val changes one register and no other. */
  lemma WithRegisterSetsOne(s: seq<byte>, i: nat, status: int, j: nat)
    requires 2 * i + 1 < |s| && 2 * j + 1 < |s|
    ensures RegisterAt(WithRegister(s, i, status), j) == if j == i then status % 0x1_0000 else RegisterAt(s, j)
  {
  }

  /** aio_set_val */
  method SetRegister(a: array<byte>, at: nat, i: nat, status: int)
    requires at + 2 * i + 1 < a.Length
    modifies a
    ensures a[..] == Overwrite(old(a[..]), at, WithRegister(old(a[at..at + 2 * i + 2]), i, status))
  {
    ghost var was := a[at..at + 2 * i + 2];
    a[at + 2 * i] := status % 0x100;
    a[at + 2 * i + 1] := (status / 0x100) % 0x100;
    assert a[at..at + 2 * i + 2] == WithRegister(was, i, status);
    assert a[..] == a[..at] + a[at..at + 2 * i + 2] + a[at + 2 * i + 2..];
  }

  // ---------- Coils ----------

  /** The octet that holds coil `index`: the offset is kept in a uint8_t. */
  function CoilOctet(index: word): nat { (index / 8) % 0x100 }

  /** The coil that dio_get_val reads. */
  predicate CoilAt(s: seq<byte>, index: word)
    requires CoilOctet(index) < |s|
  {
    TestBit(s[CoilOctet(index)], index % 8)
  }

  /** The buffer after dio_set_val. */
  function WithCoil(s: seq<byte>, index: word, status: bool): (r: seq<byte>)
    requires CoilOctet(index) < |s|
    ensures |r| == |s|
  {
    s[CoilOctet(index) := SetBit(s[CoilOctet(index)], index % 8, status)]
  }

  /** dio_set_val changes the coils whose index is the same modulo 2048, and no other. */
  lemma WithCoilSetsOne(s: seq<byte>, i: word, status: bool, j: word)
    requires CoilOctet(i) < |s| && CoilOctet(j) < |s|
    ensures CoilAt(WithCoil(s, i, status), j) == if j % 2048 == i % 2048 then status else CoilAt(s, j)
  {
    SameCoil(i, j);
    SetBitSetsOne(s[CoilOctet(i)], i % 8, status, j % 8);
  }

  lemma SameCoil(i: word, j: word)
    ensures i % 2048 == j % 2048 <==> CoilOctet(i) == CoilOctet(j) && i % 8 == j % 8
  {
    assert i % 2048 == 8 * CoilOctet(i) + i % 8;
    assert j % 2048 == 8 * CoilOctet(j) + j % 8;
  }

  /** dio_get_val */
  method GetCoil(a: array<byte>, at: nat, index: word) returns (status: int)
    requires at + CoilOctet(index) < a.Length
    ensures status == if CoilAt(a[at..], index) then 1 else 0
  {
    var offsetBit, offsetArr := index % 8, (index / 8) % 0x100;
    var mask: bv8 := 1 << offsetBit;
    status := if (a[at + offsetArr] as bv8) & mask != 0 then 1 else 0;
  }

  /** The two assignments of dio_set_val. */
  method ApplyMask(b: byte, offsetBit: nat, status: bool) returns (r: byte)
    requires offsetBit < 8
    ensures r == SetBit(b, offsetBit, status)
  {
    hide Value, Narrow;
    var mask: bv8 := 1 << offsetBit;
    var x := Narrow(b);
    if status {
      x := x | mask;
    } else {
      x := x & !mask;
    }
    r := Value(x);
  }

  /** dio_set_val */
  method SetCoil(a: array<byte>, at: nat, index: word, status: bool)
    requires at + CoilOctet(index) < a.Length
    modifies a
    ensures a[..] == Overwrite(old(a[..]), at, WithCoil(old(a[at..at + CoilOctet(index) + 1]), index, status))
  {
    var octet := at + (index / 8) % 0x100;
    ghost var was := a[at..octet + 1];
    var masked := ApplyMask(a[octet], index % 8, status);
    a[octet] := masked;
    assert a[at..octet + 1] == WithCoil(was, index, status);
    assert a[..] == a[..at] + a[at..octet + 1] + a[octet + 1..];
  }

  /** The booleans packed into an array of at most 256 octets. */
  function Unpacked(s: seq<byte>): (r: seq<bool>)
    requires |s| <= 256
    ensures |r| == 8 * |s|
  {
    seq(8 * |s|, i requires 0 <= i < 8 * |s| => CoilAt(s, i))
  }

  datatype CoilWrite = CoilWrite(index: word, status: bool)

  predicate Addressable(writes: seq<CoilWrite>, octets: nat) {
    forall i :: 0 <= i < |writes| ==> writes[i].index < 8 * octets
  }

  /** A run of dio_set_val calls. */
  function SetCoils(s: seq<byte>, writes: seq<CoilWrite>): (r: seq<byte>)
    requires |s| <= 256 && Addressable(writes, |s|)
    ensures |r| == |s|
    decreases |writes|
  {
    if writes == [] then s else SetCoils(WithCoil(s, writes[0].index, writes[0].status), writes[1..])
  }

  /** The same run on an array of booleans. */
  function SetBools(b: seq<bool>, writes: seq<CoilWrite>): (r: seq<bool>)
    requires |b| % 8 == 0 && Addressable(writes, |b| / 8)
    ensures |r| == |b|
    decreases |writes|
  {
    if writes == [] then b else SetBools(b[writes[0].index := writes[0].status], writes[1..])
  }

  lemma SameCoilInRange(i: word, j: word)
    requires i < 2048 && j < 2048
    ensures i % 2048 == j % 2048 <==> i == j
  {
  }

  /** Below 2048, dio_set_val changes exactly the coil it names. */
  lemma WithCoilInRange(s: seq<byte>, i: word, status: bool, j: word)
    requires i < 2048 && j < 2048 && CoilOctet(i) < |s| && CoilOctet(j) < |s|
    ensures CoilAt(WithCoil(s, i, status), j) == if j == i then status else CoilAt(s, j)
  {
    SameCoilInRange(i, j);
    WithCoilSetsOne(s, i, status, j);
  }

  lemma UnpackedAt(s: seq<byte>, j: word)
    requires |s| <= 256 && j < 8 * |s|
    ensures Unpacked(s)[j] == CoilAt(s, j)
  {
  }

  lemma InArray(s: seq<byte>, i: word)
    requires |s| <= 256 && i < 8 * |s|
    ensures i < 2048 && CoilOctet(i) < |s|
  {
  }

  lemma UnpackedWithCoilAt(s: seq<byte>, index: word, status: bool, j: word)
    requires |s| <= 256 && index < 8 * |s| && j < 8 * |s|
    ensures Unpacked(WithCoil(s, index, status))[j] == if j == index then status else Unpacked(s)[j]
  {
    InArray(s, index);
    InArray(s, j);
    UnpackedAt(WithCoil(s, index, status), j);
    UnpackedAt(s, j);
    WithCoilInRange(s, index, status, j);
  }

  lemma IsUpdate(a: seq<bool>, b: seq<bool>, index: nat, status: bool)
    requires |a| == |b| && index < |a|
    requires forall j :: 0 <= j < |a| ==> a[j] == if j == index then status else b[j]
    ensures a == b[index := status]
  {
  }

  lemma UnpackedWithCoil(s: seq<byte>, index: word, status: bool)
    requires |s| <= 256 && index < 8 * |s|
    ensures Unpacked(WithCoil(s, index, status)) == Unpacked(s)[index := status]
  {
    var a, b := Unpacked(WithCoil(s, index, status)), Unpacked(s);
    forall j | 0 <= j < 8 * |s| ensures a[j] == if j == index then status else b[j] {
      UnpackedWithCoilAt(s, index, status, j);
    }
    IsUpdate(a, b, index, status);
  }

  /** Packed coils refine an array of booleans under every run of writes. */
  lemma {:induction false} CoilsRefineBooleans(s: seq<byte>, writes: seq<CoilWrite>)
    requires |s| <= 256 && Addressable(writes, |s|)
    ensures Unpacked(SetCoils(s, writes)) == SetBools(Unpacked(s), writes)
    decreases |writes|
  {
    if writes != [] {
      UnpackedWithCoil(s, writes[0].index, writes[0].status);
      CoilsRefineBooleans(WithCoil(s, writes[0].index, writes[0].status), writes[1..]);
    }
  }

  /** The refinement ends where the octet offset wraps: coil i and coil i - 2048 are one coil. */
  lemma CoilsWrapAround(s: seq<byte>, i: word)
    requires CoilOctet(i) < |s|
    ensures CoilOctet(i) == CoilOctet(i % 2048) && CoilAt(s, i) == CoilAt(s, i % 2048)
    ensures CoilOctet(i) == i / 8 <==> i < 2048
  {
    SameCoil(i, i % 2048);
  }
}
