// Quantities and callback results are checked in sixteen bits and used in all of theirs: exactly when
// that takes a copy loop beyond the 260-octet buffer it works on.

module Limits {
  import opened Bytes
  import opened Codec
  import opened Cores
  import opened Framing
  import opened Protocol
  import opened Exchange
  import opened Master

  type int32 = x: int | -0x8000_0000 <= x < 0x8000_0000

  /** How often the body of do ... while (--n) is executed, on a 32-bit counter that wraps. */
  function Iterations(n: int32): nat {
    if n > 0 then n else n + 0x1_0000_0000
  }

  /** It ends at the first decrement that gives zero. */
  lemma LoopEnds(n: int32, j: nat)
    requires 1 <= j
    ensures (n - Iterations(n)) % 0x1_0000_0000 == 0 && 1 <= Iterations(n)
    ensures j < Iterations(n) ==> (n - j) % 0x1_0000_0000 != 0
  {
    if n <= 0 && j < Iterations(n) {
      assert n - j == -0x1_0000_0000 + (Iterations(n) - j);
    }
  }

  /** The octet count of the coil loops, with division that truncates. */
  function CoilOctets(n: int32): int32 {
    if n >= 0 then BitBytes(n)
    else
      var m: nat := 0 - n;
      (if m % 8 != 0 then 1 else 0) - m / 8
  }

  /** Octets a coil or register loop copies when it is called for n elements. */
  function Copied(f: byte, n: int32): nat {
    if IsBitFunction(f) then Iterations(CoilOctets(n)) else 2 * Iterations(n)
  }

  /** For the quantities of the model this is the size of the data. */
  lemma CopiedIsSize(f: byte, n: word)
    requires n > 0
    ensures Copied(f, n) == AreaSize(f, n)
  {
  }

  // ---------- The master's multiple writes ----------

  lemma RequestReach(f: byte, num: int32)
    requires IsWriteMultiple(f) && CheckAddrNum(f, 0, num % 0x1_0000)
    ensures Copied(f, num) <= 246 <==> 0 <= num < 0x1_0000
    ensures !(0 <= num < 0x1_0000) ==> Copied(f, num) > MAX_ADU
  {
  }

  /**
   * A multiple write that passes the quantity check stays in the request buffer exactly when its quantity
   * is not negative and below 65536. That is exactly what StartRequest assumes of it.
   */
  lemma RequestStaysExactly(core: Core, r: Request, num: int32)
    requires IsWriteMultiple(r.function_) && r.num == num % 0x1_0000 && CheckAddrNum(r.function_, 0, r.num)
    ensures core.Header() + 6 + Copied(r.function_, num) <= MAX_ADU <==> 0 <= num < 0x1_0000
    ensures core.Header() + 6 + Copied(r.function_, num) <= MAX_ADU <==> Means(num, r)
  {
    RequestReach(r.function_, num);
  }

  /** Two quantities that pass for one register and are not: the loop goes on for 65537, or some four billion. */
  lemma RequestLeavesBuffer()
    ensures CheckAddrNum(WRITE_REGISTERS, 0, 65537 % 0x1_0000) && Copied(WRITE_REGISTERS, 65537) == 131074
    ensures CheckAddrNum(WRITE_REGISTERS, 0, -65535 % 0x1_0000) && Copied(WRITE_REGISTERS, -65535) == 8589803522
  {
  }

  // ---------- The slave's read replies ----------

  /**
   * A callback's result that is taken for a read stays in the response buffer exactly when it is below
   * 65536. That is exactly what the model assumes of a callback.
   */
  lemma ReplyStaysExactly(core: Core, f: byte, rc: int32)
    requires IsRead(f) && Taken(f, rc)
    ensures AreaStart(core, f) + Copied(f, rc) <= MAX_ADU <==> rc < 0x1_0000
    ensures AreaStart(core, f) + Copied(f, rc) <= MAX_ADU <==> AnswerFits(f, rc)
  {
    if rc < 0x1_0000 {
      TakenSize(f, rc);
      CopiedIsSize(f, rc);
    }
  }

  /** A result that is taken for one holding register and is not. */
  lemma ReplyLeavesBuffer(core: Core)
    ensures Taken(READ_HOLDING, 65537) && AreaStart(core, READ_HOLDING) + Copied(READ_HOLDING, 65537) > MAX_ADU
  {
  }

  // ---------- The master's decoding ----------

  lemma DecodedLength(core: Core, f: byte, n: word, length: nat)
    requires IsRead(f) && length <= MAX_ADU
    requires (core.Header() + core.Checksum() + ExpectedBody(f, n)) % 0x1_0000 == length
    ensures core.Header() + 2 + Copied(f, n) <= MAX_ADU <==> 0 < n && core.Header() + 2 + AreaSize(f, n) <= length
  {
    var wide := core.Header() + core.Checksum() + ExpectedBody(f, n);
    assert wide == length || wide >= 0x1_0000;
  }

  /**
   * A reply that modbus_handle_confirm decodes is decoded within the response buffer exactly when the
   * request asks for something and for no more than the reply has.
   */
  lemma DecodingStaysExactly(core: Core, request: seq<byte>, reply: seq<byte>)
    requires |request| >= core.Header() + 5 && core.Header() + 2 <= |reply| <= MAX_ADU
    requires Decodes(core, request, reply)
    ensures core.Header() + 2 + Copied(request[core.Header()], Quantity(core.Header(), request)) <= MAX_ADU
            <==> Contained(core, request, reply)
  {
    hide Copied, AreaSize, ExpectedBody, Quantity;
    DecodedLength(core, request[core.Header()], Quantity(core.Header(), request), |reply|);
  }

  /** A request for no registers, and the empty reply to it, are decoded; the loop then goes on from zero. */
  lemma DecodingLeavesBuffer(core: Core, request: seq<byte>, reply: seq<byte>)
    requires |request| == core.Header() + 5 + core.Checksum() && |reply| == core.Header() + 2 + core.Checksum()
    requires request[core.Header()..core.Header() + 5] == [READ_HOLDING, 0, 0, 0, 0]
    requires reply[core.Header()..core.Header() + 2] == [READ_HOLDING, 0]
    ensures Decodes(core, request, reply) && !Contained(core, request, reply)
  {
    CarriesAt(core, request, [READ_HOLDING, 0, 0, 0, 0], 0);
    CarriesAt(core, request, [READ_HOLDING, 0, 0, 0, 0], 3);
    CarriesAt(core, request, [READ_HOLDING, 0, 0, 0, 0], 4);
    CarriesAt(core, reply, [READ_HOLDING, 0], 0);
    CarriesAt(core, reply, [READ_HOLDING, 0], 1);
  }
}
