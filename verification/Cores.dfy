// The RTU and TCP cores of src/small_modbus_rtu.c and src/small_modbus_tcp.c: headers, checksum or
// MBAP length, and the checks made on a received frame.

module Cores {
  import opened Bytes
  import opened Crc
  import opened Integrity

  const MODBUS_OK: int := 0
  const MODBUS_FAIL: int := -1
  const MODBUS_TIMEOUT: int := -2
  const MODBUS_FAIL_REQUEST: int := -3
  const MODBUS_FAIL_CONFIRM: int := -4
  const MODBUS_FAIL_ADRR: int := -6
  const MODBUS_FAIL_CHECK: int := -7
  const MODBUS_EXCEPTION: int := -0x80
  const MODBUS_EXCEPTION_ILLEGAL_FUNCTION: int := -0x81
  const MODBUS_EXCEPTION_ILLEGAL_DATA_VALUE: int := -0x83

  const BROADCAST: byte := 0
  const MAX_ADU: nat := 260

  datatype Core = RTU | TCP {
    /** len_header: the octets before the function code. */
    function Header(): nat { if RTU? then 1 else 7 }

    /** len_checksum */
    function Checksum(): nat { if RTU? then 2 else 0 }
  }

  // ---------- Frames as the standards draw them ----------

  /** An application data unit: address and PDU, wrapped as the core prescribes. */
  function Adu(core: Core, tid: word, slave: byte, pdu: seq<byte>): (frame: seq<byte>)
    ensures |frame| == core.Header() + |pdu| + core.Checksum()
  {
    match core
    case RTU => Sealed([slave] + pdu)
    case TCP => [Hi(tid), Lo(tid), 0, 0, Hi(|pdu| + 1), Lo(|pdu| + 1), slave] + pdu
  }

  // ---------- Frames as the code builds them ----------

  /** What a header builder leaves before the PDU; TCP keeps the old octets 4 and 5 for now. */
  function Preamble(core: Core, tid: word, slave: byte, old4: byte, old5: byte): (p: seq<byte>)
    ensures |p| == core.Header()
  {
    match core
    case RTU => [slave]
    case TCP => [Hi(tid), Lo(tid), 0, 0, old4, old5, slave]
  }

  /** check_send_pre: append the CRC, or fill in the MBAP length. */
  function Finished(core: Core, s: seq<byte>): (frame: seq<byte>)
    requires |s| >= core.Header()
    ensures |frame| == |s| + core.Checksum()
  {
    match core
    case RTU => Sealed(s)
    case TCP => s[4 := Hi(|s| - 6)][5 := Lo(|s| - 6)]
  }

  /** Building the header, appending and finishing yields the unit of the standard, whatever was there. */
  lemma FinishedIsAdu(core: Core, tid: word, slave: byte, old4: byte, old5: byte, pdu: seq<byte>)
    ensures Finished(core, Preamble(core, tid, slave, old4, old5) + pdu) == Adu(core, tid, slave, pdu)
  {
  }

  // ---------- Checking a received frame ----------

  predicate ForUs(slaveAddr: byte, addr: byte) { addr == slaveAddr || addr == BROADCAST }

  /** The tests on protocol identifier and MBAP length. */
  predicate MbapIntact(frame: seq<byte>)
    requires |frame| >= 7
  {
    frame[2] == 0 && frame[3] == 0 && |frame| - Word(frame[4], frame[5]) == 6
  }

  predicate Intact(core: Core, frame: seq<byte>)
    requires |frame| > core.Header() + core.Checksum()
  {
    match core
    case RTU => CrcMatches(frame)
    case TCP => MbapIntact(frame)
  }

  function UnitAddress(core: Core, frame: seq<byte>): byte
    requires |frame| > core.Header()
  {
    frame[core.Header() - 1]
  }

  /** check_wait_request */
  function RequestVerdict(core: Core, slaveAddr: byte, frame: seq<byte>): int
    requires |frame| > core.Header() + core.Checksum()
  {
    if !Intact(core, frame) then MODBUS_FAIL_CHECK
    else if !ForUs(slaveAddr, UnitAddress(core, frame)) then MODBUS_FAIL_ADRR
    else |frame|
  }

  /** check_wait_response: TCP also compares the transaction identifier. */
  function ResponseVerdict(core: Core, slaveAddr: byte, tid: word, frame: seq<byte>): int
    requires |frame| > core.Header() + core.Checksum()
  {
    if core.TCP? && Word(frame[0], frame[1]) != tid then MODBUS_FAIL_CHECK
    else RequestVerdict(core, slaveAddr, frame)
  }

  /** The transaction identifier a slave remembers for its reply. */
  function RememberedId(core: Core, slaveAddr: byte, tid: word, frame: seq<byte>): word
    requires |frame| > core.Header() + core.Checksum()
  {
    if core.TCP? && RequestVerdict(core, slaveAddr, frame) > 0 then Word(frame[0], frame[1]) else tid
  }

  /** A unit is intact, and carries its address, its identifier and its PDU. */
  lemma AduIsIntact(core: Core, tid: word, slave: byte, pdu: seq<byte>)
    requires 1 <= |pdu| && core.Header() + |pdu| + core.Checksum() <= MAX_ADU
    ensures Intact(core, Adu(core, tid, slave, pdu))
    ensures UnitAddress(core, Adu(core, tid, slave, pdu)) == slave
    ensures core.TCP? ==> Word(Adu(core, tid, slave, pdu)[0], Adu(core, tid, slave, pdu)[1]) == tid
    ensures Adu(core, tid, slave, pdu)[core.Header()..core.Header() + |pdu|] == pdu
  {
    match core
    case RTU =>
      SealedMatches([slave] + pdu);
    case TCP =>
  }

  // ---------- The code, on a buffer ----------

  /** build_request_header */
  method BuildRequestHeader(core: Core, tid: word, buff: array<byte>, slave: byte, fun: byte, reg: int, num: int)
    returns (tid': word, length: nat)
    requires buff.Length >= core.Header() + 5
    modifies buff
    ensures tid' == if core.TCP? then (tid + 1) % 0x1_0000 else tid
    ensures length == core.Header() + 5
    ensures buff[..length] == Preamble(core, tid', slave, old(buff[4]), old(buff[5]))
                              + [fun, Hi(reg), Lo(reg), Hi(num), Lo(num)]
  {
    if core.RTU? {
      tid' := tid;
      buff[0] := slave;
      buff[1] := fun;
      buff[2] := (reg / 0x100) % 0x100;
      buff[3] := reg % 0x100;
      buff[4] := (num / 0x100) % 0x100;
      buff[5] := num % 0x100;
      length := 6;
    } else {
      tid' := (tid + 1) % 0x1_0000;
      buff[0] := tid' / 0x100;
      buff[1] := tid' % 0x100;
      buff[2] := 0x00;
      buff[3] := 0x00;
      buff[6] := slave;
      buff[7] := fun;
      buff[8] := (reg / 0x100) % 0x100;
      buff[9] := reg % 0x100;
      buff[10] := (num / 0x100) % 0x100;
      buff[11] := num % 0x100;
      length := 12;
    }
  }

  /** build_response_header; the function code is cut to an octet. */
  method BuildResponseHeader(core: Core, tid: word, buff: array<byte>, slave: byte, fun: nat) returns (length: nat)
    requires buff.Length >= 8
    modifies buff
    ensures length == core.Header() + 1
    ensures buff[..length] == Preamble(core, tid, slave, old(buff[4]), old(buff[5])) + [fun % 0x100]
    ensures buff[length..] == old(buff[length..])
  {
    if core.RTU? {
      buff[0] := slave;
      buff[1] := fun % 0x100;
      length := 2;
    } else {
      buff[0] := tid / 0x100;
      buff[1] := tid % 0x100;
      buff[2] := 0x00;
      buff[3] := 0x00;
      buff[6] := slave;
      buff[7] := fun % 0x100;
      length := 8;
    }
  }

  /** check_send_pre */
  method CheckSendPre(core: Core, buff: array<byte>, length: nat) returns (total: nat)
    requires core.Header() <= length && length + core.Checksum() <= buff.Length
    modifies buff
    ensures total == length + core.Checksum()
    ensures buff[..total] == Finished(core, old(buff[..length]))
  {
    if core.RTU? {
      var crc := Crc16(buff, length);
      buff[length] := CrcLow(crc);
      buff[length + 1] := CrcHigh(crc);
      total := length + 2;
    } else {
      var rc := length - 6;
      buff[4] := (rc / 0x100) % 0x100;
      buff[5] := rc % 0x100;
      total := length;
    }
  }

  method CheckCrc(buff: array<byte>, length: nat) returns (ok: bool)
    requires 2 <= length <= buff.Length
    ensures ok == CrcMatches(buff[..length])
  {
    var received := Received(buff[length - 2], buff[length - 1]);
    var computed := Crc16(buff, length - 2);
    assert buff[..length][..length - 2] == buff[..length - 2];
    ok := computed == received;
  }

  /** check_wait_request; the second result is the stored transaction identifier. */
  method CheckWaitRequest(core: Core, slaveAddr: byte, tid: word, buff: array<byte>, length: nat)
    returns (rc: int, tid': word)
    requires core.Header() + core.Checksum() < length <= buff.Length
    ensures rc == RequestVerdict(core, slaveAddr, buff[..length])
    ensures tid' == RememberedId(core, slaveAddr, tid, buff[..length])
  {
    tid' := tid;
    if core.RTU? {
      var ok := CheckCrc(buff, length);
      if !ok { return MODBUS_FAIL_CHECK, tid; }
      if buff[0] != slaveAddr && buff[0] != BROADCAST { return MODBUS_FAIL_ADRR, tid; }
      rc := length;
    } else {
      var checkLen := Word(buff[4], buff[5]);
      var addr := buff[6];
      if buff[2] == 0x00 && buff[3] == 0x00 && length - checkLen == 6 {
        if addr == slaveAddr || addr == BROADCAST {
          return length, Word(buff[0], buff[1]);
        }
        return MODBUS_FAIL_ADRR, tid;
      }
      rc := MODBUS_FAIL_CHECK;
    }
  }

  /** check_wait_response */
  method CheckWaitResponse(core: Core, slaveAddr: byte, tid: word, buff: array<byte>, length: nat) returns (rc: int)
    requires core.Header() + core.Checksum() < length <= buff.Length
    ensures rc == ResponseVerdict(core, slaveAddr, tid, buff[..length])
  {
    if core.RTU? {
      var ok := CheckCrc(buff, length);
      if !ok { return MODBUS_FAIL_CHECK; }
      if buff[0] != slaveAddr && buff[0] != BROADCAST { return MODBUS_FAIL_ADRR; }
      rc := length;
    } else {
      var checkLen := Word(buff[4], buff[5]);
      var addr := buff[6];
      var transferId := Word(buff[0], buff[1]);
      if transferId == tid && buff[2] == 0x00 && buff[3] == 0x00 && length - checkLen == 6 {
        if addr == slaveAddr || addr == BROADCAST {
          return length;
        }
        return MODBUS_FAIL_ADRR;
      }
      rc := MODBUS_FAIL_CHECK;
    }
  }
}
