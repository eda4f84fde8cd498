// The master side of src/small_modbus_base.c: modbus_start_request, modbus_handle_confirm and the
// read and write wrappers.

module Master {
  import opened Bytes
  import opened Codec
  import opened Cores
  import opened Framing
  import opened Ports
  import opened Context
  import opened Protocol
  import opened Exchange
  import opened Framers
  import opened Conformance
  import S = Standard

  /** A buffer whose first `length` octets are a given string. */
  predicate Holds(buff: array<byte>, length: nat, s: seq<byte>)
    reads buff
  {
    length <= buff.Length && buff[..length] == s
  }

  lemma AppendWritten(before: seq<byte>, s: seq<byte>, data: seq<byte>, after: seq<byte>)
    requires |s| + |data| <= |before| && before[..|s|] == s
    requires after == Overwrite(before, |s|, data)
    ensures after[..|s| + |data|] == s + data
  {
  }

  lemma TailRewritten(before: seq<byte>, s: seq<byte>, t: seq<byte>, data: seq<byte>, after: seq<byte>)
    requires |s| + |t| <= |before| && before[..|s| + |t|] == s + t && |t| == |data|
    requires after == Overwrite(before, |s|, data)
    ensures after[..|s| + |t|] == s + data
  {
  }

  /** Writes one octet behind what the buffer holds. */
  method PutOctet(buff: array<byte>, at: nat, x: byte, ghost s: seq<byte>)
    requires Holds(buff, at, s) && at < buff.Length
    modifies buff
    ensures Holds(buff, at + 1, s + [x]) && buff[at + 1..] == old(buff[at + 1..])
  {
    buff[at] := x;
    assert buff[..at] == s;
  }

  /** The header every request starts with, up to the address. */
  function Head(preamble: seq<byte>, r: Request): seq<byte> {
    preamble + [r.function_, Hi(r.addr), Lo(r.addr)]
  }

  method BodyOfCoil(request: array<byte>, length: nat, status: byte, ghost head: seq<byte>, ghost t: seq<byte>)
    requires |t| == 2 && Holds(request, length, head + t)
    modifies request
    ensures Holds(request, length, head + [if status != 0 then 0xFF else 0x00, 0x00])
  {
    assert request[..length - 2] == (head + t)[..length - 2] == head;
    request[length - 2] := if status != 0 then 0xFF else 0x00;
    request[length - 1] := 0x00;
    assert request[..length - 2] == head;
  }

  method BodyOfRegister(request: array<byte>, length: nat, writeData: array<byte>, ghost head: seq<byte>,
                        ghost t: seq<byte>)
    requires |t| == 2 && Holds(request, length, head + t) && writeData.Length >= 2 && writeData != request
    modifies request
    ensures Holds(request, length, head + SwapPairs(writeData[..2]))
  {
    ghost var before := request[..];
    SwapRegisters(request, length - 2, writeData, 0, 1);
    assert before[..|head| + 2] == head + t;
    TailRewritten(before, head, t, SwapPairs(writeData[..2]), request[..]);
  }

  method BodyOfCoils(request: array<byte>, at: nat, num: word, writeData: array<byte>, ghost head: seq<byte>)
    returns (length: nat)
    requires 0 < num <= MAX_WRITE_BITS && Holds(request, at, head) && at + 1 + BitBytes(num) <= request.Length
    requires BitBytes(num) <= writeData.Length && writeData != request
    modifies request
    ensures length == at + 1 + BitBytes(num)
    ensures Holds(request, length, head + [BitBytes(num)] + writeData[..BitBytes(num)])
  {
    var count := BitBytes(num);
    PutOctet(request, at, count, head);
    ghost var before := request[..];
    CopyCoils(request, at + 1, writeData, 0, num);
    AppendWritten(before, head + [count], writeData[..count], request[..]);
    length := at + 1 + count;
  }

  method BodyOfRegisters(request: array<byte>, at: nat, num: word, writeData: array<byte>, ghost head: seq<byte>)
    returns (length: nat)
    requires 0 < num <= MAX_WRITE_REGISTERS && Holds(request, at, head) && at + 1 + 2 * num <= request.Length
    requires 2 * num <= writeData.Length && writeData != request
    modifies request
    ensures length == at + 1 + 2 * num
    ensures Holds(request, length, head + [2 * num] + SwapPairs(writeData[..2 * num]))
  {
    var count := 2 * num;
    PutOctet(request, at, count, head);
    ghost var before := request[..];
    SwapRegisters(request, at + 1, writeData, 0, num);
    AppendWritten(before, head + [count], SwapPairs(writeData[..count]), request[..]);
    length := at + 1 + count;
  }

  lemma PduSplit(preamble: seq<byte>, r: Request)
    requires r.Legal()
    ensures var quantity := [Hi(r.num), Lo(r.num)];
            var pdu := preamble + RequestPdu(r);
            && (IsRead(r.function_) ==> pdu == Head(preamble, r) + quantity)
            && (r.function_ == WRITE_COIL ==> pdu == Head(preamble, r) + [if r.data[0] != 0 then 0xFF else 0x00, 0x00])
            && (r.function_ == WRITE_REGISTER ==> pdu == Head(preamble, r) + SwapPairs(r.data[..2]))
            && (r.function_ == WRITE_COILS ==>
                  pdu == Head(preamble, r) + quantity + [BitBytes(r.num)] + r.data[..BitBytes(r.num)])
            && (r.function_ == WRITE_REGISTERS ==>
                  pdu == Head(preamble, r) + quantity + [2 * r.num] + SwapPairs(r.data[..2 * r.num]))
  {
  }

  /** The switch of modbus_start_request: the body of a request after its header. */
  method BuildBody(core: Core, request: array<byte>, r: Request, writeData: array<byte>, ghost preamble: seq<byte>)
    returns (length: nat)
    requires r.Legal() && request.Length == MAX_ADU && writeData != request && |preamble| == core.Header()
    requires r.data == writeData[..]
    requires Holds(request, core.Header() + 5, Head(preamble, r) + [Hi(r.num), Lo(r.num)])
    modifies request
    ensures length + core.Checksum() <= MAX_ADU
    ensures Holds(request, length, preamble + RequestPdu(r))
  {
    ghost var head, quantity := Head(preamble, r), [Hi(r.num), Lo(r.num)];
    length := core.Header() + 5;
    PduSplit(preamble, r);
    if r.function_ == WRITE_COIL {
      BodyOfCoil(request, length, writeData[0], head, quantity);
    } else if r.function_ == WRITE_REGISTER {
      BodyOfRegister(request, length, writeData, head, quantity);
    } else if r.function_ == WRITE_COILS {
      length := BodyOfCoils(request, length, r.num, writeData, head + quantity);
    } else if r.function_ == WRITE_REGISTERS {
      length := BodyOfRegisters(request, length, r.num, writeData, head + quantity);
    }
  }

  /**
   * The int `num` that an application passes stands for the quantity of its low sixteen bits: the quantity
   * check and the header see no more. A multiple write that passes the check with one that is negative or
   * larger would copy beyond the request buffer; Limits says so exactly.
   */
  predicate Means(num: int, r: Request) {
    && num % 0x1_0000 == r.num
    && (IsWriteMultiple(r.function_) && CheckAddrNum(r.function_, 0, r.num) ==> num == r.num)
  }

  lemma LowSixteenBits(num: int, low: word)
    requires low == num % 0x1_0000
    ensures Hi(num) == Hi(low) && Lo(num) == Lo(low)
  {
    var q := num / 0x1_0000;
    assert num == q * 0x1_0000 + low;
    assert num / 0x100 == q * 0x100 + low / 0x100;
  }

  /** modbus_start_request: refused without a trace, or one standard application data unit is sent. */
  method StartRequest(smb: SmallModbus, request: array<byte>, r: Request, num: int, writeData: array<byte>)
    returns (ret: int)
    requires request.Length == MAX_ADU && writeData != request && r.data == writeData[..]
    requires r.Backed() && Means(num, r)
    modifies request, smb`transferId, smb.port`sent
    ensures !r.Legal() ==> ret == MODBUS_FAIL_REQUEST && request[..] == old(request[..])
                           && smb.port.sent == old(smb.port.sent) && smb.transferId == old(smb.transferId)
    ensures S.QuantityAllowed(r.function_, num % 0x1_0000) <==> smb.port.sent != old(smb.port.sent)
    ensures !S.QuantityAllowed(r.function_, num % 0x1_0000) ==> ret == -3
    ensures r.Legal() ==>
              && smb.transferId == NextId(smb.core, old(smb.transferId))
              && (var frame := Adu(smb.core, smb.transferId, smb.slaveAddr, RequestPdu(r));
                  && ret == |frame| <= MAX_ADU && request[..ret] == frame
                  && smb.port.sent == old(smb.port.sent) + [frame])
  {
    hide Adu, Finished, RequestPdu;
    LegalExactly(r);
    if !CheckAddrNum(r.function_, r.addr % 0x1_0000, num % 0x1_0000) {
      return MODBUS_FAIL_REQUEST;
    }
    LowSixteenBits(num, r.num);
    ghost var old4, old5 := request[4], request[5];
    var tid, length := BuildRequestHeader(smb.core, smb.transferId, request, smb.slaveAddr, r.function_, r.addr, num);
    smb.transferId := tid;
    ghost var preamble := Preamble(smb.core, tid, smb.slaveAddr, old4, old5);
    assert request[..length] == Head(preamble, r) + [Hi(r.num), Lo(r.num)];
    length := BuildBody(smb.core, request, r, writeData, preamble);
    var total := CheckSendPre(smb.core, request, length);
    FinishedIsAdu(smb.core, tid, smb.slaveAddr, old4, old5, RequestPdu(r));
    ret := smb.port.Write(request, total);
  }

  // ---------- Decoding the confirmation ----------

  /** The switch that calculates how long the reply should be. */
  method BodyLength(f: byte, temp: word) returns (body: nat)
    ensures body == ExpectedBody(f, temp)
  {
    if f == READ_COILS || f == READ_INPUTS {
      body := 2 + temp / 8 + (if temp % 8 != 0 then 1 else 0);
    } else if f == WRITE_AND_READ_REGISTERS || f == READ_HOLDING || f == READ_INPUT_REGISTERS {
      body := 2 + 2 * temp;
    } else if f == READ_EXCEPTION_STATUS {
      body := 3;
    } else if f == MASK_WRITE_REGISTER {
      body := 7;
    } else {
      body := 5;
    }
  }

  /** The computation of calc_length, in 16-bit arithmetic. */
  method CalcLength(core: Core, request: array<byte>, ghost sent: seq<byte>) returns (expected: nat)
    requires core.Header() + 5 <= |sent| && sent <= request[..]
    ensures expected == ExpectedLength(core, sent)
  {
    hide ExpectedBody, Word;
    var h := core.Header();
    var body := BodyLength(request[h], Word(request[h + 3], request[h + 4]));
    expected := (h + core.Checksum() + body) % 0x1_0000;
  }

  /** The bit case of modbus_handle_confirm: decode if the count octet is the expected one. */
  method StoreBits(num: word, response: array<byte>, at: nat, readData: array<byte>)
    requires 0 < at <= response.Length && readData != response
    requires BitBytes(num) % 0x100 == response[at - 1] ==>
               0 < num && BitBytes(num) <= readData.Length && at + BitBytes(num) <= response.Length
    modifies readData
    ensures readData[..] == if BitBytes(num) % 0x100 == response[at - 1]
              then Overwrite(old(readData[..]), 0, response[at..at + BitBytes(num)])
              else old(readData[..])
  {
    hide Overwrite;
    var temp: nat := num / 8 + (if num % 8 != 0 then 1 else 0);
    if temp % 0x100 == response[at - 1] {
      CopyCoils(readData, 0, response, at, num);
    }
  }

  /** The register case. */
  method StoreRegisters(num: word, response: array<byte>, at: nat, readData: array<byte>)
    requires 0 < at <= response.Length && readData != response
    requires 2 * num % 0x100 == response[at - 1] ==>
               0 < num && 2 * num <= readData.Length && at + 2 * num <= response.Length
    modifies readData
    ensures readData[..] == if 2 * num % 0x100 == response[at - 1]
              then Overwrite(old(readData[..]), 0, SwapPairs(response[at..at + 2 * num]))
              else old(readData[..])
  {
    hide Overwrite, SwapPairs;
    var temp: nat := num * 2;
    if temp % 0x100 == response[at - 1] {
      SwapRegisters(readData, 0, response, at, num);
    }
  }

  lemma WholePayload(f: byte, num: word, area: seq<byte>)
    requires |area| == AreaSize(f, num)
    ensures |Payload(f, num, area)| == |area|
    ensures Payload(f, num, area) == if IsBitFunction(f) then area else SwapPairs(area)
  {
    assert area[..AreaSize(f, num)] == area;
  }

  /** The two read cases of modbus_handle_confirm. */
  method StoreRead(f: byte, num: word, response: array<byte>, at: nat, readData: array<byte>)
    requires IsRead(f) && 0 < at <= response.Length && readData != response
    requires AreaSize(f, num) % 0x100 == response[at - 1] ==>
               0 < num && AreaSize(f, num) <= readData.Length && at + AreaSize(f, num) <= response.Length
    modifies readData
    ensures AreaSize(f, num) % 0x100 == response[at - 1] ==>
              var payload := Payload(f, num, response[at..at + AreaSize(f, num)]);
              |payload| <= readData.Length && readData[..] == Overwrite(old(readData[..]), 0, payload)
    ensures AreaSize(f, num) % 0x100 != response[at - 1] ==> readData[..] == old(readData[..])
  {
    hide Overwrite, SwapPairs, Payload;
    if AreaSize(f, num) % 0x100 == response[at - 1] {
      WholePayload(f, num, response[at..at + AreaSize(f, num)]);
    }
    if f == READ_COILS || f == READ_INPUTS {
      StoreBits(num, response, at, readData);
    } else {
      StoreRegisters(num, response, at, readData);
    }
  }

  /** The data a read leaves behind: the decoded octets at the front, or nothing changed. */
  predicate Stored(before: seq<byte>, read: Option<seq<byte>>, after: seq<byte>) {
    match read
    case None => after == before
    case Some(data) => |data| <= |before| && after == Overwrite(before, 0, data)
  }

  /** If the reply is going to be decoded there is something to decode, and room for it. */
  predicate Decodable(core: Core, request: seq<byte>, reply: seq<byte>, readLen: nat)
    requires |request| >= core.Header() + 5 && |reply| >= core.Header() + 2
  {
    Decodes(core, request, reply) ==>
      Contained(core, request, reply) && AreaSize(request[core.Header()], Quantity(core.Header(), request)) <= readLen
  }

  /** A reply of the expected length to a read: its payload is decoded if its count octet is right. */
  method DecodeRead(core: Core, ghost sent: seq<byte>, ghost reply: seq<byte>,
                    request: array<byte>, response: array<byte>, readData: array<byte>)
    requires core.Header() + 5 <= |sent| && sent <= request[..] && core.Header() + 2 <= |reply| && reply <= response[..]
    requires readData != response && readData != request && Decodable(core, sent, reply, readData.Length)
    requires reply[core.Header()] == sent[core.Header()] && IsRead(sent[core.Header()])
    requires ExpectedLength(core, sent) == |reply|
    modifies readData
    ensures Confirm(core, sent, reply).ret == MODBUS_OK
    ensures Stored(old(readData[..]), Confirm(core, sent, reply).read, readData[..])
  {
    hide Overwrite, Payload, SwapPairs, ExpectedLength, AreaSize;
    var h := core.Header();
    var f, num := request[h], Word(request[h + 3], request[h + 4]);
    assert num == Quantity(h, sent);
    if Decodes(core, sent, reply) {
      assert response[h + 2..h + 2 + AreaSize(f, num)] == reply[h + 2..h + 2 + AreaSize(f, num)];
    }
    StoreRead(f, num, response, h + 2, readData);
  }

  /**
   * modbus_handle_confirm. The source trusts the request: should the quantity be zero, or larger than the
   * reply although the lengths agree in sixteen bits, it would decode beyond the reply.
   */
  method HandleConfirm(smb: SmallModbus, request: array<byte>, requestLen: nat,
                       response: array<byte>, responseLen: nat, readData: array<byte>)
    returns (ret: int)
    requires smb.core.Header() + 5 <= requestLen <= request.Length
    requires smb.core.Header() + 2 <= responseLen <= response.Length
    requires readData != response && readData != request
    requires Decodable(smb.core, request[..requestLen], response[..responseLen], readData.Length)
    modifies readData
    ensures var c := Confirm(smb.core, old(request[..requestLen]), old(response[..responseLen]));
            ret == c.ret && Stored(old(readData[..]), c.read, readData[..])
  {
    var h := smb.core.Header();
    var f, g := request[h], response[h];
    ghost var sent, reply := request[..requestLen], response[..responseLen];
    if g >= 0x80 {
      return Negated(g);
    }
    if f != g {
      return MODBUS_FAIL_CONFIRM;
    }
    var expected := CalcLength(smb.core, request, sent);
    if expected == responseLen &&
       (f == READ_COILS || f == READ_INPUTS || f == READ_HOLDING || f == READ_INPUT_REGISTERS) {
      DecodeRead(smb.core, sent, reply, request, response, readData);
    }
    ret := MODBUS_OK;
  }

  /** For a request the library issued the quantity is in order. */
  lemma IssuedDecodable(core: Core, sent: seq<byte>, reply: seq<byte>, readLen: nat)
    requires Issued(core, sent) && |reply| >= core.Header() + 2
    requires var h := core.Header(); IsRead(sent[h]) ==> AreaSize(sent[h], Quantity(h, sent)) <= readLen
    ensures Decodable(core, sent, reply, readLen)
  {
    ExpectedFor(core, sent);
  }

  /** The second half of a wrapper: wait for the confirmation and decode it. */
  method AwaitAnswer(smb: SmallModbus, request: array<byte>, requestLen: nat, response: array<byte>,
                     readData: array<byte>)
    returns (ret: int, ghost taken: nat, ghost failed: bool)
    requires request.Length == response.Length == MAX_ADU && request != response && requestLen <= MAX_ADU
    requires readData != request && readData != response && Issued(smb.core, request[..requestLen])
    requires var h := smb.core.Header();
             IsRead(request[h]) ==> readData.Length >= AreaSize(request[h], Quantity(h, request[..requestLen]))
    modifies smb.port`rx, smb.port`plan, response, readData
    ensures taken <= |old(smb.port.Stream())| && smb.port.Stream() == old(smb.port.Stream())[taken..]
    ensures Rest(smb.port.plan, old(smb.port.plan))
    ensures failed ==> CutShort(smb.port, taken, ret) && ScanReply(smb.core, old(smb.port.Stream())[..taken]) == More
                       && readData[..] == old(readData[..])
    ensures !failed ==>
              var c := CallResult(smb.core, smb.slaveAddr, smb.transferId,
                                   old(request[..requestLen]), old(smb.port.Stream()));
              && ret == c.ret && ScanReply(smb.core, old(smb.port.Stream())) in {Whole(taken), TooLong(taken)}
              && Stored(old(readData[..]), c.read, readData[..])
  {
    ret, taken, failed := WaitConfirm(smb, response);
    if 0 >= ret {
      return;
    }
    assert response[..ret] == old(smb.port.Stream())[..ret];
    IssuedDecodable(smb.core, request[..requestLen], response[..ret], readData.Length);
    ret := HandleConfirm(smb, request, requestLen, response, ret, readData);
  }

  /** A reply of another unit ends the call with an error, and nothing is read. */
  lemma OtherUnitResult(core: Core, slaveAddr: byte, tid: word, request: seq<byte>, stream: seq<byte>)
    requires Issued(core, request)
    ensures ScanReply(core, stream).Whole? ==>
              && |stream| > HeaderOf(core)
              && (UnitOf(core, stream) != slaveAddr && UnitOf(core, stream) != 0 ==>
                    var c := CallResult(core, slaveAddr, tid, request, stream); c.ret in {-6, -7} && c.read.None?)
  {
    hide ResponseVerdict;
    if ScanReply(core, stream).Whole? && UnitOf(core, stream) != slaveAddr && UnitOf(core, stream) != 0 {
      OtherUnitRefused(core, slaveAddr, tid, stream[..ScanReply(core, stream).length]);
    }
  }

  /**
   * The body shared by modbus_read_bits, modbus_read_input_bits, modbus_read_registers,
   * modbus_read_input_registers, modbus_write_register, modbus_write_bits and modbus_write_registers:
   * start a request from write_buff, wait for the confirmation in read_buff, decode it.
   */
  method Call(smb: SmallModbus, r: Request, num: int, writeData: array<byte>, readData: array<byte>)
    returns (ret: int, ghost taken: nat, ghost failed: bool)
    requires smb.Valid() && r.data == writeData[..] && r.Backed() && Means(num, r)
    requires writeData != smb.writeBuff && readData != smb.readBuff && readData != smb.writeBuff
    requires IsRead(r.function_) && r.Legal() ==> readData.Length >= AreaSize(r.function_, r.num)
    modifies smb.readBuff, smb.writeBuff, smb`transferId, smb.port, readData
    ensures taken <= |old(smb.port.Stream())| && smb.port.Stream() == old(smb.port.Stream())[taken..]
    ensures Rest(smb.port.plan, old(smb.port.plan))
    ensures !r.Legal() ==>
              ret == MODBUS_FAIL_REQUEST && taken == 0 && smb.port.sent == old(smb.port.sent)
              && smb.transferId == old(smb.transferId) && readData[..] == old(readData[..])
    ensures r.Legal() ==>
              && smb.transferId == NextId(smb.core, old(smb.transferId))
              && (var frame := Adu(smb.core, smb.transferId, smb.slaveAddr, RequestPdu(r));
                  var stream := old(smb.port.Stream());
                  && smb.port.sent == old(smb.port.sent) + [frame] && Issued(smb.core, frame)
                  && (failed ==> CutShort(smb.port, taken, ret) && ScanReply(smb.core, stream[..taken]) == More
                                 && readData[..] == old(readData[..]))
                  && (!failed ==> var c := CallResult(smb.core, smb.slaveAddr, smb.transferId, frame, stream);
                      && ret == c.ret && ScanReply(smb.core, stream) in {Whole(taken), TooLong(taken)}
                      && Stored(old(readData[..]), c.read, readData[..])))
    ensures r.Legal() && !failed && ScanReply(smb.core, old(smb.port.Stream())) == Whole(taken) &&
            UnitOf(smb.core, old(smb.port.Stream())) !in {smb.slaveAddr, 0} ==>
              ret in {-6, -7} && readData[..] == old(readData[..])
  {
    taken, failed := 0, false;
    ret := StartRequest(smb, smb.writeBuff, r, num, writeData);
    if 0 > ret {
      return;
    }
    ghost var frame := smb.writeBuff[..ret];
    AduCarries(smb.core, smb.transferId, smb.slaveAddr, RequestPdu(r));
    RequestIssued(smb.core, frame, r);
    ghost var stream := smb.port.Stream();
    ret, taken, failed := AwaitAnswer(smb, smb.writeBuff, ret, smb.readBuff, readData);
    OtherUnitResult(smb.core, smb.slaveAddr, smb.transferId, frame, stream);
  }

  // ---------- modbus_write_bit ----------

  /** The memory modbus_write_bit lets write_data point at: an int that is 0xFF00 or 0, little-endian. */
  function WriteBitData(status: int): seq<byte> {
    [0x00, if status != 0 then 0xFF else 0x00, 0x00, 0x00]
  }

  /**
   * The encoder tests the first of those octets only, so modbus_write_bit asks for the coil to be
   * cleared whatever it is given: its request is the one asked for exactly when that is to clear.
   */
  lemma WriteBitAlwaysClears(addr: int, status: int)
    ensures var r := Request(WRITE_COIL, addr, 1, WriteBitData(status));
            && r.Legal() && RequestPdu(r) == [WRITE_COIL, Hi(addr), Lo(addr), 0x00, 0x00]
    ensures RequestPdu(Request(WRITE_COIL, addr, 1, WriteBitData(status)))
            == RequestPdu(Request(WRITE_COIL, addr, 1, [if status != 0 then 1 else 0]))
            <==> status == 0
  {
    var wanted := RequestPdu(Request(WRITE_COIL, addr, 1, [if status != 0 then 1 else 0]));
    assert wanted[3] == if status != 0 then 0xFF else 0x00;
  }
}
