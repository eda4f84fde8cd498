// What the master makes of any reply: exactly when a call ends with MODBUS_OK or with an exception, and
// replies that do not answer the request and still end it so.

module MasterFacts {
  import opened Bytes
  import opened Codec
  import opened Cores
  import opened Framing
  import opened Protocol
  import opened Exchange
  import opened Remote
  import Crc
  import C = Conformance
  import S = Standard

  /** The reply is framed whole, passes every check, and the call ends with this result. */
  predicate Yields(core: Core, tid: word, slaveAddr: byte, r: Request, reply: seq<byte>, c: Confirmed)
    requires r.Legal()
  {
    var request := Adu(core, tid, slaveAddr, RequestPdu(r));
    && ScanReply(core, reply) == Whole(|reply|) && ResponseVerdict(core, slaveAddr, tid, reply) == |reply|
    && Issued(core, request) && CallResult(core, slaveAddr, tid, request, reply) == c
  }

  lemma YieldsConfirm(core: Core, tid: word, slaveAddr: byte, r: Request, pdu: seq<byte>)
    requires r.Legal() && Announced(pdu) && core.Header() + |pdu| + core.Checksum() <= MAX_ADU
    ensures var request, reply := Adu(core, tid, slaveAddr, RequestPdu(r)), Adu(core, tid, slaveAddr, pdu);
            && Carries(core, request, RequestPdu(r)) && Carries(core, reply, pdu)
            && Issued(core, request) && |reply| >= core.Header() + 2
            && Yields(core, tid, slaveAddr, r, reply, Confirm(core, request, reply))
  {
    var request, reply := Adu(core, tid, slaveAddr, RequestPdu(r)), Adu(core, tid, slaveAddr, pdu);
    AduCarries(core, tid, slaveAddr, RequestPdu(r));
    RequestIssued(core, request, r);
    MasterAccepts(core, tid, tid, slaveAddr, pdu);
    CallResultOf(core, slaveAddr, tid, request, reply);
  }

  /**
   * What a call returns, for every reply stream: MODBUS_OK exactly when the stream begins with a frame
   * that passes the checks and has the request's function code, whatever else it says; a number from
   * -0x80 down exactly when it has some code from 0x80 on, whatever the request's.
   */
  lemma ResultExactly(core: Core, slaveAddr: byte, tid: word, request: seq<byte>, stream: seq<byte>)
    requires Issued(core, request)
    ensures var h, ret := core.Header(), CallResult(core, slaveAddr, tid, request, stream).ret;
            var passes := ScanReply(core, stream).Whole? &&
                          ResponseVerdict(core, slaveAddr, tid, stream[..ScanReply(core, stream).length]) > 0;
            && (ret == MODBUS_OK <==> passes && stream[h] == request[h])
            && (ret <= -0x80 <==> passes && stream[h] >= 0x80)
            && (ret <= -0x80 ==> ret == Negated(stream[h]))
  {
    hide Intact, Decodes, Payload;
  }

  /** The same for the errors, in numbers. */
  lemma ErrorsExactly(core: Core, slaveAddr: byte, tid: word, request: seq<byte>, stream: seq<byte>)
    requires Issued(core, request)
    ensures var h, scan := C.HeaderOf(core), ScanReply(core, stream);
            var ret := CallResult(core, slaveAddr, tid, request, stream).ret;
            && (scan.More? ==> ret == -2) && (scan.TooLong? ==> ret == -4)
            && (scan.Whole? ==>
                  var verdict := ResponseVerdict(core, slaveAddr, tid, stream[..scan.length]);
                  if verdict <= 0 then ret == verdict
                  else if stream[h] >= 128 then ret == Negated(stream[h])
                  else ret == if stream[h] == request[h] then 0 else -4)
  {
    hide ResponseVerdict, Decodes, Payload;
  }

  /** An intact reply of another unit, whatever it says, ends the call with -6, and nothing is read. */
  lemma ForeignUnitRefused(core: Core, tid: word, slaveAddr: byte, unit: byte, r: Request, pdu: seq<byte>)
    requires r.Legal() && unit != slaveAddr && unit != 0
    requires pdu != [] && S.ReplyNeeds(pdu[0]) <= |pdu| == S.ReplyLength(pdu)
    requires C.HeaderOf(core) + |pdu| + C.ChecksumOf(core) <= 260
    ensures var request := Adu(core, tid, slaveAddr, RequestPdu(r));
            && Issued(core, request)
            && CallResult(core, slaveAddr, tid, request, Adu(core, tid, unit, pdu)) == Confirmed(-6, None)
  {
    hide Adu, ResponseVerdict, ScanReply, RequestPdu, Issued;
    var request, reply := Adu(core, tid, slaveAddr, RequestPdu(r)), Adu(core, tid, unit, pdu);
    AduCarries(core, tid, slaveAddr, RequestPdu(r));
    RequestIssued(core, request, r);
    C.AnyReplyFramed(core, tid, unit, slaveAddr, pdu);
    assert reply[..|reply|] == reply;
  }

  /** A TCP reply with another protocol identifier, a length not its own, or another identifier: -7. */
  lemma MbapDamagedRefused(slaveAddr: byte, tid: word, request: seq<byte>, stream: seq<byte>, n: nat)
    requires Issued(TCP, request) && ScanReply(TCP, stream) == Whole(n) && 8 < n <= |stream|
    requires stream[2] != 0 || stream[3] != 0 || S.Number(stream[4], stream[5]) != n - 6
             || S.Number(stream[0], stream[1]) != tid
    ensures CallResult(TCP, slaveAddr, tid, request, stream) == Confirmed(-7, None)
  {
    hide ScanReply, Issued, ResponseVerdict;
    C.TcpVerdict(slaveAddr, tid, stream[..n]);
  }

  /** An RTU reply whose CRC leaves a residue: -7. */
  lemma CrcDamagedRefused(slaveAddr: byte, tid: word, request: seq<byte>, stream: seq<byte>, n: nat)
    requires Issued(RTU, request) && ScanReply(RTU, stream) == Whole(n) && 4 < n <= |stream|
    requires Crc.Checksum(stream[..n]) != 0
    ensures CallResult(RTU, slaveAddr, tid, request, stream) == Confirmed(-7, None)
  {
    hide ScanReply, Issued, ResponseVerdict;
    C.RtuVerdict(slaveAddr, tid, stream[..n]);
  }

  lemma ReadReplyTooLong(tid: word, slaveAddr: byte, f: byte, payload: seq<byte>)
    requires IsRead(f) && 251 < |payload| <= 255
    ensures ScanReply(TCP, Adu(TCP, tid, slaveAddr, [f, |payload|] + payload)) == TooLong(9)
  {
  }

  /**
   * A reply to a read, intact and with a count octet that fits its data, ends the call with MODBUS_OK
   * whatever its length, if it fits the largest unit: over RTU always, over TCP up to 251 octets of data.
   * Data are stored exactly when their length is the one asked for.
   */
  lemma ReadOfAnyLength(core: Core, tid: word, slaveAddr: byte, r: Request, payload: seq<byte>)
    requires r.Legal() && IsRead(r.function_) && |payload| <= 255
    ensures var request := Adu(core, tid, slaveAddr, RequestPdu(r));
            var reply := Adu(core, tid, slaveAddr, [r.function_, |payload|] + payload);
            if core.RTU? || |payload| <= 251 then
              Yields(core, tid, slaveAddr, r, reply,
                     Confirmed(MODBUS_OK, if |payload| == AreaSize(r.function_, r.num)
                                          then Some(Payload(r.function_, r.num, payload)) else None))
            else
              && Issued(core, request)
              && CallResult(core, slaveAddr, tid, request, reply) == Confirmed(MODBUS_FAIL_CONFIRM, None)
  {
    hide Adu, ResponseVerdict, Confirm, Carries, RequestPdu, ScanReply;
    var f, pdu := r.function_, [r.function_, |payload|] + payload;
    var request, reply := Adu(core, tid, slaveAddr, RequestPdu(r)), Adu(core, tid, slaveAddr, pdu);
    if core.RTU? || |payload| <= 251 {
      hide CallResult, Issued;
      YieldsConfirm(core, tid, slaveAddr, r, pdu);
      RequestIssued(core, request, r);
      ReadReplyFramed(core, reply, f, |payload|, payload);
      DecodedExactly(core, request, reply, |reply|);
      assert reply[..|reply|] == reply;
    } else {
      hide Issued;
      AduCarries(core, tid, slaveAddr, RequestPdu(r));
      RequestIssued(core, request, r);
      ReadReplyTooLong(tid, slaveAddr, f, payload);
    }
  }

  /** For instance: sixteen coils are asked for, an empty payload comes back, and the call is MODBUS_OK. */
  lemma EmptyReadAccepted(core: Core, tid: word, slaveAddr: byte)
    ensures Yields(core, tid, slaveAddr, Request(READ_COILS, 0, 16, []),
                   Adu(core, tid, slaveAddr, [READ_COILS, 0]), Confirmed(MODBUS_OK, None))
  {
    ReadOfAnyLength(core, tid, slaveAddr, Request(READ_COILS, 0, 16, []), []);
    assert [READ_COILS, 0] + [] == [READ_COILS, 0];
  }

  /** A reply to a write is MODBUS_OK whatever address and quantity or value it echoes. */
  lemma EchoIgnored(core: Core, tid: word, slaveAddr: byte, r: Request, echo: seq<byte>)
    requires r.Legal() && IsWrite(r.function_) && |echo| == 4
    ensures Yields(core, tid, slaveAddr, r, Adu(core, tid, slaveAddr, [r.function_] + echo), Confirmed(MODBUS_OK, None))
  {
    hide CallResult, ResponseVerdict, Confirm, Issued, Carries, RequestPdu, ScanReply;
    var pdu := [r.function_] + echo;
    var request, reply := Adu(core, tid, slaveAddr, RequestPdu(r)), Adu(core, tid, slaveAddr, pdu);
    YieldsConfirm(core, tid, slaveAddr, r, pdu);
    ConfirmWrite(core, request, reply, r, echo);
  }

  /** An exception reply ends the call for every code from 0x80 on, not only the request's plus 0x80. */
  lemma ForeignException(core: Core, tid: word, slaveAddr: byte, r: Request, g: byte, code: byte)
    requires r.Legal() && g >= 0x80
    ensures Yields(core, tid, slaveAddr, r, Adu(core, tid, slaveAddr, [g, code]), Confirmed(Negated(g), None))
  {
    hide CallResult, ResponseVerdict, Issued, RequestPdu, ScanReply;
    YieldsConfirm(core, tid, slaveAddr, r, [g, code]);
    CarriesAt(core, Adu(core, tid, slaveAddr, [g, code]), [g, code], 0);
  }
}
