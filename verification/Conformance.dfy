// The model of the code against the numbers of Standard: frame lengths, checks, layouts, decisions and
// answers, for every input.

module Conformance {
  import opened Bytes
  import opened Codec
  import opened Cores
  import opened Framing
  import opened Protocol
  import opened Exchange
  import opened Remote
  import Crc
  import Integrity
  import Win32Port
  import S = Standard

  // ---------- Numbers of the headers ----------

  /** Return codes, function codes and sizes are those of the library's headers. */
  lemma HeaderNumbers()
    ensures MODBUS_OK == 0 && MODBUS_FAIL == -1 && MODBUS_TIMEOUT == -2 && MODBUS_FAIL_REQUEST == -3
    ensures MODBUS_FAIL_CONFIRM == -4 && MODBUS_FAIL_ADRR == -6 && MODBUS_FAIL_CHECK == -7
    ensures Win32Port.MODBUS_ERROR_READ == -8 && Win32Port.RING_SIZE == 256 && Win32Port.PY_BUF_SIZE == 512
    ensures READ_COILS == 1 && READ_INPUTS == 2 && READ_HOLDING == 3 && READ_INPUT_REGISTERS == 4
    ensures WRITE_COIL == 5 && WRITE_REGISTER == 6 && WRITE_COILS == 15 && WRITE_REGISTERS == 16
    ensures BROADCAST == 0 && MAX_ADU == 260 && RTU.Header() == 1 && TCP.Header() == 7
  {
  }

  // ---------- Quantities ----------

  /** The quantity check lets through what the standard allows, for every function code and quantity. */
  lemma QuantityExactly(f: byte, addr: word, n: word)
    ensures CheckAddrNum(f, addr, n) <==> S.QuantityAllowed(f, n)
  {
  }

  lemma SizeExactly(f: byte, n: word)
    ensures HostSize(f, n) == S.WriteSize(f, n) && BitBytes(n) == S.Packed(n)
  {
  }

  /** So a request is sent exactly when its quantity is allowed, if its memory is as large as it needs. */
  lemma LegalExactly(r: Request)
    ensures r.Legal() <==> S.QuantityAllowed(r.function_, r.num) && |r.data| >= S.WriteSize(r.function_, r.num)
  {
    QuantityExactly(r.function_, r.addr % 0x1_0000, r.num);
    SizeExactly(r.function_, r.num);
  }

  // ---------- Frame lengths ----------

  function HeaderOf(core: Core): nat { if core == RTU then 1 else 7 }

  function ChecksumOf(core: Core): nat { if core == RTU then 2 else 0 }

  /** What a framer that goes by these numbers decides about a stream. */
  function Decision(core: Core, s: seq<byte>, needs: nat, length: nat): Scan {
    var h, c := HeaderOf(core), ChecksumOf(core);
    if |s| < h + needs then More
    else if h + length + c > 260 then TooLong(h + needs)
    else if |s| < h + length + c then More
    else Whole(h + length + c)
  }

  lemma TailAt(s: seq<byte>, h: nat, i: nat)
    requires h + i < |s|
    ensures s[h..][i] == s[h + i]
  {
  }

  /** The slave's framer finds every request of every function code as long as its layout says. */
  lemma RequestFramingExactly(core: Core, s: seq<byte>)
    ensures var h := HeaderOf(core);
            ScanRequest(core, s) ==
            if |s| <= h || |s| < h + S.RequestNeeds(s[h]) then More
            else Decision(core, s, S.RequestNeeds(s[h]), S.RequestLength(s[h..]))
  {
    var h := HeaderOf(core);
    if |s| > h && |s| >= h + S.RequestNeeds(s[h]) {
      TailAt(s, h, 0);
      if S.RequestNeeds(s[h]) == 6 { TailAt(s, h, 5); }
      if S.RequestNeeds(s[h]) == 10 { TailAt(s, h, 9); }
    }
  }

  /** So does the master's framer with replies. */
  lemma ReplyFramingExactly(core: Core, s: seq<byte>)
    ensures var h := HeaderOf(core);
            ScanReply(core, s) ==
            if |s| <= h || |s| < h + S.ReplyNeeds(s[h]) then More
            else Decision(core, s, S.ReplyNeeds(s[h]), S.ReplyLength(s[h..]))
  {
    var h := HeaderOf(core);
    if |s| > h && |s| >= h + S.ReplyNeeds(s[h]) {
      TailAt(s, h, 0);
      TailAt(s, h, 1);
    }
  }

  // ---------- Layouts ----------

  /** The application data unit of either core, in numbers. */
  lemma UnitOnWire(core: Core, tid: word, unit: byte, pdu: seq<byte>)
    requires |pdu| <= 253
    ensures core == TCP ==>
              Adu(core, tid, unit, pdu) == S.Big(tid) + [0, 0] + S.Big(|pdu| + 1) + [unit] + pdu
    ensures core == RTU ==>
              var frame, n := Adu(core, tid, unit, pdu), |pdu| + 1;
              && |frame| == n + 2 && frame[..n] == [unit] + pdu
              && Crc.BitsOf(frame[n]) + Crc.BitsOf(frame[n + 1]) == Crc.Reg(Crc.Checksum([unit] + pdu))
  {
    if core == RTU {
      Integrity.CrcOctets(Crc.Checksum([unit] + pdu));
    }
  }

  /** The requests of the eight functions, in numbers. */
  lemma RequestOnWire(r: Request)
    requires r.Legal()
    ensures r.function_ in {1, 2, 3, 4} ==> RequestPdu(r) == [r.function_] + S.Big(r.addr) + S.Big(r.num)
    ensures r.function_ == 5 ==> RequestPdu(r) == [5] + S.Big(r.addr) + [if r.data[0] != 0 then 0xFF else 0, 0]
    ensures r.function_ == 6 ==> RequestPdu(r) == [6] + S.Big(r.addr) + [r.data[1], r.data[0]]
    ensures r.function_ == 15 ==>
              RequestPdu(r) == [15] + S.Big(r.addr) + S.Big(r.num) + [S.Packed(r.num)] + r.data[..S.Packed(r.num)]
  {
    SizeExactly(r.function_, r.num);
  }

  /** The multiple register write: each register of the application's memory, high octet first. */
  lemma RegistersOnWire(r: Request, i: nat)
    requires r.Legal() && r.function_ == 16 && i < r.num
    ensures |RequestPdu(r)| == 6 + 2 * r.num
    ensures RequestPdu(r)[..6] == [16] + S.Big(r.addr) + S.Big(r.num) + [2 * r.num]
    ensures RequestPdu(r)[6 + 2 * i] == r.data[2 * i + 1] && RequestPdu(r)[7 + 2 * i] == r.data[2 * i]
  {
    PairAt(r.data[..2 * r.num], i);
  }

  // ---------- Checks ----------

  /** The checks of the RTU core on any frame: CRC first, then the unit, this one's or 0. */
  lemma RtuVerdict(slaveAddr: byte, tid: word, frame: seq<byte>)
    requires |frame| > 3
    ensures RequestVerdict(RTU, slaveAddr, frame) == ResponseVerdict(RTU, slaveAddr, tid, frame) ==
            if Crc.Checksum(frame) != 0 then -7
            else if frame[0] != slaveAddr && frame[0] != 0 then -6
            else |frame|
  {
    Integrity.ResidueIsZero(frame);
  }

  /** The checks of the TCP core: protocol identifier 0 and the length that is there, then the unit. */
  lemma TcpVerdict(slaveAddr: byte, tid: word, frame: seq<byte>)
    requires |frame| > 7
    ensures RequestVerdict(TCP, slaveAddr, frame) ==
            if !S.MbapSound(frame) then -7
            else if frame[6] != slaveAddr && frame[6] != 0 then -6
            else |frame|
    ensures ResponseVerdict(TCP, slaveAddr, tid, frame) ==
            if S.Number(frame[0], frame[1]) != tid || !S.MbapSound(frame) then -7
            else if frame[6] != slaveAddr && frame[6] != 0 then -6
            else |frame|
  {
  }

  /** The identifier a slave remembers: that of a TCP frame it lets through, and no other. */
  lemma RememberedExactly(core: Core, slaveAddr: byte, tid: word, frame: seq<byte>)
    requires |frame| > HeaderOf(core) + ChecksumOf(core)
    ensures RememberedId(core, slaveAddr, tid, frame) ==
            if core == TCP && S.MbapSound(frame) && (frame[6] == slaveAddr || frame[6] == 0)
            then S.Number(frame[0], frame[1]) else tid
  {
  }

  /** The unit a frame is for, or from. */
  function UnitOf(core: Core, frame: seq<byte>): byte
    requires |frame| > HeaderOf(core)
  {
    if core == RTU then frame[0] else frame[6]
  }

  /** For either core: a frame from or for another unit is never let through. */
  lemma OtherUnitRefused(core: Core, slaveAddr: byte, tid: word, frame: seq<byte>)
    requires |frame| > HeaderOf(core) + ChecksumOf(core)
    requires UnitOf(core, frame) != slaveAddr && UnitOf(core, frame) != 0
    ensures RequestVerdict(core, slaveAddr, frame) in {-6, -7}
    ensures ResponseVerdict(core, slaveAddr, tid, frame) in {-6, -7}
  {
    if core == RTU {
      RtuVerdict(slaveAddr, tid, frame);
    } else {
      TcpVerdict(slaveAddr, tid, frame);
    }
  }

  lemma PduOfUnit(core: Core, tid: word, unit: byte, pdu: seq<byte>)
    requires pdu != [] && HeaderOf(core) + |pdu| + ChecksumOf(core) <= 260
    ensures var frame := Adu(core, tid, unit, pdu);
            && |frame| == HeaderOf(core) + |pdu| + ChecksumOf(core)
            && frame[HeaderOf(core)..HeaderOf(core) + |pdu|] == pdu
            && (forall i :: 0 <= i < |pdu| ==> frame[HeaderOf(core) + i] == pdu[i])
  {
    AduCarries(core, tid, unit, pdu);
    forall i | 0 <= i < |pdu| ensures Adu(core, tid, unit, pdu)[HeaderOf(core) + i] == pdu[i] {
      CarriesAt(core, Adu(core, tid, unit, pdu), pdu, i);
    }
  }

  lemma LengthOfPrefix(p: seq<byte>, q: seq<byte>)
    requires p != [] && S.RequestNeeds(p[0]) <= |p| <= |q| && q[..|p|] == p
    ensures q[0] == p[0] && S.RequestLength(q) == S.RequestLength(p)
  {
    assert forall i :: 0 <= i < |p| ==> q[i] == q[..|p|][i];
  }

  lemma ReplyLengthOfPrefix(p: seq<byte>, q: seq<byte>)
    requires p != [] && S.ReplyNeeds(p[0]) <= |p| <= |q| && q[..|p|] == p
    ensures q[0] == p[0] && S.ReplyLength(q) == S.ReplyLength(p)
  {
    assert forall i :: 0 <= i < |p| ==> q[i] == q[..|p|][i];
  }

  /**
   * A request of any function code, laid out as the standard says, to any unit, is framed whole, and let
   * through exactly when it is to this unit or to all.
   */
  lemma AnyRequestFramed(core: Core, tid: word, unit: byte, slaveAddr: byte, pdu: seq<byte>)
    requires pdu != [] && S.RequestNeeds(pdu[0]) <= |pdu| == S.RequestLength(pdu)
    requires HeaderOf(core) + |pdu| + ChecksumOf(core) <= 260
    ensures var frame := Adu(core, tid, unit, pdu);
            && ScanRequest(core, frame) == Whole(|frame|)
            && RequestVerdict(core, slaveAddr, frame) == if unit == slaveAddr || unit == 0 then |frame| else -6
  {
    hide Intact, Adu;
    var h, frame := HeaderOf(core), Adu(core, tid, unit, pdu);
    PduOfUnit(core, tid, unit, pdu);
    AduIsIntact(core, tid, unit, pdu);
    assert frame[h..][..|pdu|] == frame[h..h + |pdu|];
    LengthOfPrefix(pdu, frame[h..]);
    assert frame[h..][0] == frame[h];
    hide ScanRequest;
    RequestFramingExactly(core, frame);
  }

  /** So is a reply, whose identifier the master also compares over TCP. */
  lemma AnyReplyFramed(core: Core, tid: word, unit: byte, slaveAddr: byte, pdu: seq<byte>)
    requires pdu != [] && S.ReplyNeeds(pdu[0]) <= |pdu| == S.ReplyLength(pdu)
    requires HeaderOf(core) + |pdu| + ChecksumOf(core) <= 260
    ensures var frame := Adu(core, tid, unit, pdu);
            && ScanReply(core, frame) == Whole(|frame|)
            && ResponseVerdict(core, slaveAddr, tid, frame) == if unit == slaveAddr || unit == 0 then |frame| else -6
  {
    hide Intact, Adu;
    var h, frame := HeaderOf(core), Adu(core, tid, unit, pdu);
    PduOfUnit(core, tid, unit, pdu);
    AduIsIntact(core, tid, unit, pdu);
    assert frame[h..][..|pdu|] == frame[h..h + |pdu|];
    ReplyLengthOfPrefix(pdu, frame[h..]);
    assert frame[h..][0] == frame[h];
    hide ScanReply;
    ReplyFramingExactly(core, frame);
  }

  // ---------- Decisions and answers ----------

  /** What the slave makes of a request buffer, in numbers, for every function code and quantity. */
  lemma DecisionExactly(core: Core, request: seq<byte>)
    requires |request| >= HeaderOf(core) + 5
    ensures var h := HeaderOf(core);
            var f, a := request[h], S.Number(request[h + 1], request[h + 2]);
            var n := S.Number(request[h + 3], request[h + 4]);
            QueryOf(core, request) ==
            if f in {5, 6} then Ask(f, a, 1)
            else if S.Supported(f) && S.QuantityAllowed(f, n) then Ask(f, a, n)
            else if S.Supported(f) then Refuse(-0x83)
            else if f == 0x11 then Identify
            else Refuse(-0x81)
  {
  }

  /** Which results of the callback are success: one for the single writes, else a quantity that is allowed. */
  lemma TakenExactly(f: byte, rc: int)
    requires S.Supported(f)
    ensures Taken(f, rc) <==> if f in {5, 6} then rc == 1 else 0 < rc && S.QuantityAllowed(f, rc % 0x1_0000)
  {
    QuantityExactly(f, 0, rc % 0x1_0000);
  }

  /** The answers that need no callback: unknown functions 0x7F, quantities that are not allowed 0x7D. */
  lemma RefusedExactly<T(!new)>(core: Core, slaveAddr: byte, request: seq<byte>, response: seq<byte>,
                                cb: Option<Callback<T>>, state: T)
    requires |request| == |response| == 260 && (cb.Some? ==> WellBehaved(cb.value))
    ensures var f, n := request[HeaderOf(core)], S.Number(request[HeaderOf(core) + 3], request[HeaderOf(core) + 4]);
            var served := Serve(core, slaveAddr, request, response, cb, state);
            && (f == 0x11 ==> served == Protocol.Served(state, S.Identity(slaveAddr)))
            && (f != 0x11 && !S.Supported(f) ==>
                  served == Protocol.Served(state, [if f < 128 then f + 128 else f - 128, 0x7F]))
            && (S.Supported(f) && f !in {5, 6} && !S.QuantityAllowed(f, n) ==>
                  served == Protocol.Served(state, [128 + f, 0x7D]))
  {
    hide QueryOf, AreaOf, Consult, ReplyPdu, S.QuantityAllowed, IdentityPdu;
    DecisionExactly(core, request);
    IdentityExactly(slaveAddr);
  }

  lemma IdentityExactly(unit: byte)
    ensures IdentityPdu(unit) == S.Identity(unit)
  {
  }

  /** The answer after the callback returned rc: the exception octet, the echo, or the count octet. */
  lemma ReplyExactly(f: byte, rc: int, room: seq<byte>, echo: seq<byte>)
    requires S.Supported(f) && AnswerFits(f, rc) && (IsRead(f) ==> |room| >= MAX_PAYLOAD) && |echo| == 4
    ensures var pdu := ReplyPdu(f, rc, room, echo);
            if !Taken(f, rc) then pdu == [128 + f, if rc < 0 then rc % 256 else if f in {5, 6} then 0x7D else 0x80]
            else if f in {5, 6, 15, 16} then pdu == [f] + echo
            else if f in {1, 2} then pdu == [f, S.Packed(rc)] + room[..S.Packed(rc)]
            else |pdu| == 2 + 2 * rc && pdu[..2] == [f, 2 * rc]
  {
    if Taken(f, rc) && IsRead(f) {
      SizeExactly(f, rc);
      TakenSize(f, rc);
      PayloadSize(f, rc, room);
    }
  }

  /** Register i of a read reply: the callback's memory, high octet first. */
  lemma ReplyRegister(f: byte, rc: word, room: seq<byte>, echo: seq<byte>, i: nat)
    requires f in {3, 4} && Taken(f, rc) && |room| >= MAX_PAYLOAD && |echo| == 4 && i < rc
    ensures |ReplyPdu(f, rc, room, echo)| == 2 + 2 * rc && 2 * i + 1 < |room|
    ensures ReplyPdu(f, rc, room, echo)[2 + 2 * i] == room[2 * i + 1]
    ensures ReplyPdu(f, rc, room, echo)[3 + 2 * i] == room[2 * i]
  {
    PairAt(room[..2 * rc], i);
  }

  /** The memory the callback of a write gets, in numbers. */
  lemma AreaExactly(core: Core, q: Query, request: seq<byte>, response: seq<byte>)
    requires |request| == |response| == 260 && q.Ask? && q == QueryOf(core, request)
    ensures CheckAddrNum(q.function_, q.addr, q.num) && q.num <= 2000
    ensures q.function_ in {5, 6} ==> q.num == 1
    ensures var h, area := HeaderOf(core), AreaOf(core, q, request, response);
            && (q.function_ in {1, 2} ==> area == response[h + 2..h + 2 + S.Packed(q.num)])
            && (q.function_ in {3, 4} ==> area == response[h + 2..h + 2 + 2 * q.num])
            && (q.function_ == 5 ==> area == [request[h + 3]])
            && (q.function_ == 6 ==> area == [request[h + 4], request[h + 3]])
            && (q.function_ == 15 ==> area == request[h + 6..h + 6 + S.Packed(q.num)])
            && (q.function_ == 16 ==> |area| == 2 * q.num)
  {
    AskIsLegal(core, request, response);
    SizeExactly(q.function_, q.num);
  }

  lemma AreaRegister(core: Core, q: Query, request: seq<byte>, response: seq<byte>, i: nat)
    requires |request| == |response| == 260 && q.Ask? && q == QueryOf(core, request)
    requires q.function_ == 16 && i < q.num <= 123
    ensures |AreaOf(core, q, request, response)| == 2 * q.num && HeaderOf(core) + 7 + 2 * i < 260
    ensures AreaOf(core, q, request, response)[2 * i] == request[HeaderOf(core) + 7 + 2 * i]
    ensures AreaOf(core, q, request, response)[2 * i + 1] == request[HeaderOf(core) + 6 + 2 * i]
  {
    var at := HeaderOf(core) + 6;
    PairAt(request[at..at + 2 * q.num], i);
  }

  // ---------- Confirmations ----------

  /** Octets of data a read of n elements returns. */
  function ReadSize(f: byte, n: word): nat { if f in {1, 2} then S.Packed(n) else 2 * n }

  lemma ExpectedExactly(core: Core, request: seq<byte>)
    requires Issued(core, request)
    ensures var h, f, n := core.Header(), request[core.Header()], Quantity(core.Header(), request);
            && n == S.Number(request[h + 3], request[h + 4])
            && (IsRead(f) ==> 0 < n && AreaSize(f, n) == ReadSize(f, n) <= 250
                              && ExpectedLength(core, request) == h + 2 + ReadSize(f, n) + core.Checksum())
  {
    ExpectedFor(core, request);
  }

  /** When the master decodes: a read of the right length with the right count. */
  lemma DecodedWhen(core: Core, request: seq<byte>, reply: seq<byte>)
    requires Issued(core, request) && |reply| >= HeaderOf(core) + 2 && reply[HeaderOf(core)] == request[HeaderOf(core)]
    ensures var h, f := HeaderOf(core), request[HeaderOf(core)];
            var size := ReadSize(f, S.Number(request[h + 3], request[h + 4]));
            Decodes(core, request, reply) && Contained(core, request, reply) <==>
            f in {1, 2, 3, 4} && |reply| == h + 2 + size + ChecksumOf(core) && reply[h + 1] == size
  {
    hide ExpectedLength, AreaSize, ReadSize, CheckAddrNum, Quantity;
    ExpectedExactly(core, request);
  }

  lemma PayloadIs(f: byte, n: word, area: seq<byte>)
    requires |area| == ReadSize(f, n) && f in {1, 2, 3, 4}
    ensures AreaSize(f, n) == |area| == |Payload(f, n, area)| && (f in {1, 2} ==> Payload(f, n, area) == area)
  {
    assert area[..|area|] == area;
  }

  /** What the master makes of a reply to its own request, in numbers. */
  lemma ConfirmExactly(core: Core, request: seq<byte>, reply: seq<byte>)
    requires Issued(core, request) && |reply| >= HeaderOf(core) + 2
    ensures var h := HeaderOf(core);
            var f, g := request[h], reply[h];
            var size := ReadSize(f, S.Number(request[h + 3], request[h + 4]));
            var answer := Confirm(core, request, reply);
            && (g >= 128 ==> answer == Confirmed(Negated(g), None))
            && (g < 128 && g != f ==> answer == Confirmed(-4, None))
            && (g == f ==> answer.ret == 0)
            && (g == f ==> (answer.read.Some? <==>
                  f in {1, 2, 3, 4} && |reply| == h + 2 + size + ChecksumOf(core) && reply[h + 1] == size))
            && (g != f ==> answer.read.None?)
            && (answer.read.Some? ==> |answer.read.value| == size && |reply| >= h + 2 + size)
            && (answer.read.Some? && f in {1, 2} ==> answer.read.value == reply[h + 2..h + 2 + size])
  {
    hide Decodes, Contained, Payload, ReadSize;
    var h := HeaderOf(core);
    var f, n := request[h], Quantity(h, request);
    if reply[h] == f {
      DecodedWhen(core, request, reply);
      if Decodes(core, request, reply) && Contained(core, request, reply) {
        PayloadIs(f, n, reply[h + 2..h + 2 + ReadSize(f, n)]);
      }
    }
  }

  lemma RegisterOfPayload(f: byte, n: word, payload: seq<byte>, i: nat)
    requires f in {3, 4} && |payload| == 2 * n && i < n
    ensures AreaSize(f, n) == |Payload(f, n, payload)| == 2 * n
    ensures Payload(f, n, payload)[2 * i] == payload[2 * i + 1]
    ensures Payload(f, n, payload)[2 * i + 1] == payload[2 * i]
  {
    assert payload[..2 * n] == payload;
    PairAt(payload, i);
  }

  /** Register i of what is read: the reply's, low octet first. */
  lemma ReadRegister(core: Core, request: seq<byte>, reply: seq<byte>, i: nat)
    requires Issued(core, request) && |reply| >= HeaderOf(core) + 2 && request[HeaderOf(core)] in {3, 4}
    requires Confirm(core, request, reply).read.Some?
    requires i < S.Number(request[HeaderOf(core) + 3], request[HeaderOf(core) + 4])
    ensures var h, value := HeaderOf(core), Confirm(core, request, reply).read.value;
            && 2 * i + 1 < |value| && h + 3 + 2 * i < |reply|
            && value[2 * i] == reply[h + 3 + 2 * i] && value[2 * i + 1] == reply[h + 2 + 2 * i]
  {
    hide Payload, SwapPairs, Decodes, AreaSize;
    var h, n := HeaderOf(core), Quantity(HeaderOf(core), request);
    var f := request[h];
    assert Contained(core, request, reply);
    ExpectedExactly(core, request);
    RegisterOfPayload(f, n, reply[h + 2..h + 2 + 2 * n], i);
  }
}
