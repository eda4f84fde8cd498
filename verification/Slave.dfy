// The slave side of src/small_modbus_base.c: modbus_slave_handle and modbus_slave_wait_handle.

module Slave {
  import opened Bytes
  import opened Codec
  import opened Cores
  import opened Framing
  import opened Ports
  import opened Context
  import opened Protocol
  import opened Exchange
  import opened Framers
  import opened Master

  /** A header as a builder leaves it before the PDU. */
  predicate IsPreamble(core: Core, tid: word, slave: byte, pre: seq<byte>) {
    && |pre| == core.Header()
    && (core.RTU? ==> pre == [slave])
    && (core.TCP? ==> pre == Preamble(core, tid, slave, pre[4], pre[5]))
  }

  lemma FinishAny(core: Core, tid: word, slave: byte, pre: seq<byte>, pdu: seq<byte>)
    requires IsPreamble(core, tid, slave, pre)
    ensures Finished(core, pre + pdu) == Adu(core, tid, slave, pdu)
  {
    match core
    case RTU => FinishedIsAdu(core, tid, slave, 0, 0, pdu);
    case TCP => FinishedIsAdu(core, tid, slave, pre[4], pre[5], pdu);
  }

  /** Calls the callback, if there is one, on an area of a buffer. */
  method Invoke<S(!new)>(cb: Option<Callback<S>>, state: S, q: Query, buff: array<byte>, at: nat)
    returns (state': S, rc: int)
    requires q.Ask? && at + AreaSize(q.function_, q.num) <= buff.Length
    requires LegalCall(q.function_, q.addr, q.num, buff[at..at + AreaSize(q.function_, q.num)])
    requires cb.Some? ==> WellBehaved(cb.value)
    modifies buff
    ensures var a := Consult(cb, state, q, old(buff[at..at + AreaSize(q.function_, q.num)]));
            && state' == a.state && rc == a.rc
            && buff[..] == Overwrite(old(buff[..]), at, a.area)
  {
    state', rc := state, 0;
    ghost var before := buff[..];
    ghost var area := buff[at..at + AreaSize(q.function_, q.num)];
    if cb.Some? {
      var a := cb.value(state, q.function_, q.addr, q.num, buff[at..at + AreaSize(q.function_, q.num)]);
      forall i | 0 <= i < |a.area| { buff[at + i] := a.area[i]; }
      IsOverwrite(before, at, a.area, buff[..]);
      return a.state, a.rc;
    }
    IsOverwrite(before, at, area, buff[..]);
  }

  method ReplyHeader(smb: SmallModbus, fun: nat) returns (length: nat, ghost pre: seq<byte>)
    requires smb.Valid()
    modifies smb.writeBuff
    ensures length == smb.core.Header() + 1 && IsPreamble(smb.core, smb.transferId, smb.slaveAddr, pre)
    ensures Holds(smb.writeBuff, length, pre + [fun % 0x100])
    ensures smb.writeBuff[length..] == old(smb.writeBuff[length..])
  {
    pre := Preamble(smb.core, smb.transferId, smb.slaveAddr, smb.writeBuff[4], smb.writeBuff[5]);
    length := BuildResponseHeader(smb.core, smb.transferId, smb.writeBuff, smb.slaveAddr, fun);
  }

  lemma SameSlice(s: seq<byte>, t: seq<byte>, from: nat, a: nat, b: nat)
    requires from <= a <= b <= |s| == |t| && s[from..] == t[from..]
    ensures s[a..b] == t[a..b]
  {
    forall k | a <= k < b ensures s[k] == t[k] {
      assert s[from..][k - from] == t[from..][k - from];
    }
  }

  lemma SameTail(s: seq<byte>, t: seq<byte>, from: nat, a: nat)
    requires from <= a <= |s| == |t| && s[from..] == t[from..]
    ensures s[a..] == t[a..]
  {
    SameSlice(s, t, from, a, |s|);
    assert s[a..] == s[a..|s|] && t[a..] == t[a..|t|];
  }

  lemma ShorterSlice(s: seq<byte>, at: nat, area: seq<byte>, n: nat)
    requires at + |area| <= |s| && s[at..at + |area|] == area && n <= |area|
    ensures s[at..at + n] == area[..n]
  {
    forall k | at <= k < at + n ensures s[k] == area[k - at] {
      assert s[at..at + |area|][k - at] == s[k];
    }
  }

  lemma WrittenSlices(s: seq<byte>, at: nat, data: seq<byte>, t: seq<byte>)
    requires at + |data| <= |s| && t == Overwrite(s, at, data)
    ensures t[..at] == s[..at] && t[at..at + |data|] == data
  {
  }

  /** Brings the first n elements of the area at `at` into wire order, in place. */
  method ToWire(buff: array<byte>, at: nat, f: byte, n: word, ghost area: seq<byte>)
    requires IsRead(f) && 0 < n && AreaSize(f, n) <= |area|
    requires at + |area| <= buff.Length && buff[at..at + |area|] == area
    modifies buff
    ensures buff[..] == Overwrite(old(buff[..]), at, Payload(f, n, area))
  {
    hide Overwrite, SwapPairs;
    ShorterSlice(buff[..], at, area, AreaSize(f, n));
    if f == READ_COILS || f == READ_INPUTS {
      CopyCoils(buff, at, buff, at, n);
    } else {
      SwapRegisters(buff, at, buff, at, n);
    }
  }

  /** The data part of a read reply, made in place from what the response buffer holds from the area on. */
  method PutPayload(buff: array<byte>, at: nat, f: byte, n: word, ghost head: seq<byte>, ghost room: seq<byte>)
    returns (length: nat)
    requires IsRead(f) && 0 < n && AreaSize(f, n) <= MAX_PAYLOAD <= |room|
    requires Holds(buff, at, head) && at + 1 + |room| <= buff.Length && buff[at + 1..at + 1 + |room|] == room
    modifies buff
    ensures length == at + 1 + AreaSize(f, n)
    ensures Holds(buff, length, head + [AreaSize(f, n)] + Payload(f, n, room))
  {
    var bytes := if f == READ_COILS || f == READ_INPUTS then BitBytes(n) else 2 * n;
    ghost var start := buff[..];
    PutOctet(buff, at, bytes, head);
    SameSlice(start, buff[..], at + 1, at + 1, at + 1 + |room|);
    ghost var before := buff[..];
    ToWire(buff, at + 1, f, n, room);
    AppendWritten(before, head + [bytes], Payload(f, n, room), buff[..]);
    length := at + 1 + bytes;
  }

  lemma WrittenTail(s: seq<byte>, at: nat, data: seq<byte>, t: seq<byte>)
    requires at + |data| <= |s| && t == Overwrite(s, at, data)
    ensures t[at..] == data + s[at + |data|..]
  {
  }

  /** A response header, and behind the place for the count octet the area the callback has worked on. */
  method AskForData<S(!new)>(smb: SmallModbus, q: Query, cb: Option<Callback<S>>, state: S, ghost area: seq<byte>)
    returns (length: nat, rc: int, state': S, ghost pre: seq<byte>, ghost left: seq<byte>)
    requires smb.Valid() && q.Ask? && LegalCall(q.function_, q.addr, q.num, area)
    requires cb.Some? ==> WellBehaved(cb.value)
    requires var at := smb.core.Header() + 2;
             at + |area| <= MAX_ADU && area == smb.writeBuff[at..at + |area|]
    modifies smb.writeBuff
    ensures var a := Consult(cb, state, q, area);
            && state' == a.state && rc == a.rc && left == a.area && |left| == |area|
    ensures length == smb.core.Header() + 1 && IsPreamble(smb.core, smb.transferId, smb.slaveAddr, pre)
    ensures Holds(smb.writeBuff, length, pre + [q.function_])
    ensures smb.writeBuff[length + 1..] == left + old(smb.writeBuff[smb.core.Header() + 2 + |area|..])
  {
    hide Consult, IsPreamble, CheckAddrNum;
    ghost var start := smb.writeBuff[..];
    length, pre := ReplyHeader(smb, q.function_);
    ghost var before := smb.writeBuff[..];
    SameSlice(start, before, length, length + 1, length + 1 + |area|);
    SameTail(start, before, length, length + 1 + |area|);
    state', rc := Invoke(cb, state, q, smb.writeBuff, length + 1);
    left := Consult(cb, state, q, area).area;
    WrittenSlices(before, length + 1, left, smb.writeBuff[..]);
    WrittenTail(before, length + 1, left, smb.writeBuff[..]);
    assert smb.writeBuff[..length] == smb.writeBuff[..length + 1][..length] == before[..length];
  }

  /** The read cases of modbus_slave_handle: whether the callback's answer is taken, and the reply so far. */
  method ServeRead<S(!new)>(smb: SmallModbus, q: Query, cb: Option<Callback<S>>, state: S, ghost area: seq<byte>)
    returns (length: nat, rc: int, ok: bool, state': S, ghost pre: seq<byte>)
    requires smb.Valid() && q.Ask? && IsRead(q.function_) && LegalCall(q.function_, q.addr, q.num, area)
    requires cb.Some? ==> WellBehaved(cb.value)
    requires AreaStart(smb.core, q.function_) + |area| <= MAX_ADU
    requires area == smb.writeBuff[AreaStart(smb.core, q.function_)..AreaStart(smb.core, q.function_) + |area|]
    modifies smb.writeBuff
    ensures var a := Consult(cb, state, q, area);
            var room := RoomOf(smb.core, q.function_, a.area, old(smb.writeBuff[..]));
            && state' == a.state && rc == a.rc && ok == Taken(q.function_, rc)
            && (ok ==> rc < 0x1_0000 && AreaSize(q.function_, rc) <= MAX_PAYLOAD
                       && IsPreamble(smb.core, smb.transferId, smb.slaveAddr, pre)
                       && length + smb.core.Checksum() <= MAX_ADU
                       && Holds(smb.writeBuff, length,
                                pre + [q.function_, AreaSize(q.function_, rc)] + Payload(q.function_, rc, room)))
  {
    hide Consult, IsPreamble, Payload;
    ghost var left: seq<byte>;
    ghost var start := smb.writeBuff[..];
    length, rc, state', pre, left := AskForData(smb, q, cb, state, area);
    ghost var room := RoomOf(smb.core, q.function_, left, start);
    ok := 0 < rc && CheckAddrNum(q.function_, q.addr, rc % 0x1_0000);
    if ok {
      assert smb.writeBuff[length + 1..length + 1 + |room|] == smb.writeBuff[length + 1..] == room;
      TakenSize(q.function_, rc);
      length := PutPayload(smb.writeBuff, length, q.function_, rc, pre + [q.function_], room);
      assert pre + [q.function_] + [AreaSize(q.function_, rc)] == pre + [q.function_, AreaSize(q.function_, rc)];
    }
  }

  /** Brings the data of a write request into host order, in place. */
  method ToHost(buff: array<byte>, at: nat, f: byte, n: word)
    requires !IsRead(f) && 0 < n && at + AreaSize(f, n) <= buff.Length
    requires f == WRITE_COIL || f == WRITE_COILS || f == WRITE_REGISTER || f == WRITE_REGISTERS
    modifies buff
    ensures buff[..] == Overwrite(old(buff[..]), at, Payload(f, n, old(buff[at..at + AreaSize(f, n)])))
  {
    hide Overwrite, SwapPairs;
    ghost var area := buff[at..at + AreaSize(f, n)];
    assert area[..AreaSize(f, n)] == area;
    if f == WRITE_COIL || f == WRITE_COILS {
      CopyCoils(buff, at, buff, at, n);
    } else {
      SwapRegisters(buff, at, buff, at, n);
    }
  }

  /** Hands the data of a write request to the callback, if there is one. */
  method HandOver<S(!new)>(request: array<byte>, at: nat, q: Query, cb: Option<Callback<S>>, state: S,
                           ghost area: seq<byte>)
    returns (rc: int, state': S)
    requires q.Ask? && IsWrite(q.function_) && LegalCall(q.function_, q.addr, q.num, area)
    requires 0 < q.num && at + |area| <= request.Length
    requires area == Payload(q.function_, q.num, request[at..at + |area|])
    requires cb.Some? ==> WellBehaved(cb.value)
    modifies request
    ensures var a := Consult(cb, state, q, area);
            state' == a.state && rc == a.rc
  {
    rc, state' := 0, state;
    if cb.Some? {
      ghost var before := request[..];
      ToHost(request, at, q.function_, q.num);
      WrittenSlices(before, at, area, request[..]);
      state', rc := Invoke(cb, state, q, request, at);
    }
  }

  /** Appends the echoed address and quantity or value to a reply header. */
  method PutEcho(buff: array<byte>, at: nat, addr: word, value: word, ghost head: seq<byte>) returns (length: nat)
    requires Holds(buff, at, head) && at + 4 <= buff.Length
    modifies buff
    ensures length == at + 4 && Holds(buff, length, head + [Hi(addr), Lo(addr), Hi(value), Lo(value)])
  {
    PutOctet(buff, at, addr / 0x100, head);
    PutOctet(buff, at + 1, addr % 0x100, head + [Hi(addr)]);
    PutOctet(buff, at + 2, value / 0x100, head + [Hi(addr)] + [Lo(addr)]);
    PutOctet(buff, at + 3, value % 0x100, head + [Hi(addr)] + [Lo(addr)] + [Hi(value)]);
    assert head + [Hi(addr)] + [Lo(addr)] + [Hi(value)] + [Lo(value)]
           == head + [Hi(addr), Lo(addr), Hi(value), Lo(value)];
    length := at + 4;
  }

  lemma FourOctets(s: seq<byte>, at: nat)
    requires at + 4 <= |s|
    ensures s[at..at + 4] == [s[at], s[at + 1], s[at + 2], s[at + 3]]
  {
  }

  lemma EchoFields(core: Core, s: seq<byte>)
    requires |s| >= core.Header() + 5
    ensures var h := core.Header();
            var addr, value := Word(s[h + 1], s[h + 2]), Word(s[h + 3], s[h + 4]);
            s[h + 1..h + 5] == [Hi(addr), Lo(addr), Hi(value), Lo(value)]
  {
    var h := core.Header();
    FourOctets(s, h + 1);
    JoinSplit(s[h + 1], s[h + 2]);
    JoinSplit(s[h + 3], s[h + 4]);
  }

  /** The write cases of modbus_slave_handle: a single write is taken for the answer one only. */
  method ServeWrite<S(!new)>(smb: SmallModbus, request: array<byte>, q: Query, value: word, cb: Option<Callback<S>>,
                             state: S, ghost area: seq<byte>)
    returns (length: nat, rc: int, ok: bool, state': S, ghost pre: seq<byte>)
    requires smb.Valid() && request.Length == MAX_ADU && request != smb.writeBuff
    requires q.Ask? && IsWrite(q.function_) && LegalCall(q.function_, q.addr, q.num, area) && 0 < q.num
    requires var at := AreaStart(smb.core, q.function_);
             at + |area| <= MAX_ADU && area == Payload(q.function_, q.num, request[at..at + |area|])
    requires cb.Some? ==> WellBehaved(cb.value)
    modifies smb.writeBuff, request
    ensures var a := Consult(cb, state, q, area);
            && state' == a.state && rc == a.rc && ok == Taken(q.function_, rc)
            && (ok ==> length == smb.core.Header() + 5
                       && IsPreamble(smb.core, smb.transferId, smb.slaveAddr, pre)
                       && Holds(smb.writeBuff, length,
                                pre + [q.function_] + [Hi(q.addr), Lo(q.addr), Hi(value), Lo(value)]))
  {
    hide Consult, Payload, IsPreamble;
    length, pre := ReplyHeader(smb, q.function_);
    rc, state' := HandOver(request, AreaStart(smb.core, q.function_), q, cb, state, area);
    if q.function_ == WRITE_COIL || q.function_ == WRITE_REGISTER {
      ok := 1 == rc;
    } else {
      ok := 0 < rc && CheckAddrNum(q.function_, q.addr, rc % 0x1_0000);
    }
    if ok {
      length := PutEcho(smb.writeBuff, length, q.addr, value, pre + [q.function_]);
    }
  }

  /** The exception reply: header with the top bit of the function set, and one octet of code. */
  method PutException(smb: SmallModbus, f: byte, rc: int, code: int) returns (length: nat, ghost pre: seq<byte>)
    requires smb.Valid()
    modifies smb.writeBuff
    ensures length == smb.core.Header() + 2 && IsPreamble(smb.core, smb.transferId, smb.slaveAddr, pre)
    ensures Holds(smb.writeBuff, length, pre + ExceptionPdu(f, ExceptionCode(rc, code)))
  {
    var exception := if rc < 0 then rc else code;
    length, pre := ReplyHeader(smb, f + 0x80);
    PutOctet(smb.writeBuff, length, exception % 0x100, pre + [Flagged(f)]);
    assert pre + [Flagged(f)] + [Lo(exception)] == pre + ExceptionPdu(f, exception);
    length := length + 1;
  }

  method PutIdentity(smb: SmallModbus) returns (length: nat, ghost pre: seq<byte>)
    requires smb.Valid()
    modifies smb.writeBuff
    ensures length == smb.core.Header() + 11 && IsPreamble(smb.core, smb.transferId, smb.slaveAddr, pre)
    ensures Holds(smb.writeBuff, length, pre + IdentityPdu(smb.slaveAddr))
  {
    length, pre := ReplyHeader(smb, REPORT_SLAVE_ID);
    ghost var before := smb.writeBuff[..];
    var body := [9, smb.slaveAddr, 0xFF] + SLAVE_ID;
    forall i | 0 <= i < |body| { smb.writeBuff[length + i] := body[i]; }
    IsOverwrite(before, length, body, smb.writeBuff[..]);
    AppendWritten(before, pre + [REPORT_SLAVE_ID], body, smb.writeBuff[..]);
    assert pre + [REPORT_SLAVE_ID] + body == pre + IdentityPdu(smb.slaveAddr);
    length := length + |body|;
  }

  /** check_send_pre and modbus_write: one application data unit with this PDU goes out. */
  method SendReply(smb: SmallModbus, length: nat, ghost pre: seq<byte>, ghost pdu: seq<byte>) returns (ret: int)
    requires smb.Valid() && IsPreamble(smb.core, smb.transferId, smb.slaveAddr, pre)
    requires length + smb.core.Checksum() <= MAX_ADU && Holds(smb.writeBuff, length, pre + pdu)
    modifies smb.writeBuff, smb.port`sent
    ensures var frame := Adu(smb.core, smb.transferId, smb.slaveAddr, pdu);
            ret == |frame| <= MAX_ADU && smb.port.sent == old(smb.port.sent) + [frame]
  {
    assert smb.core.Header() <= |pre + pdu| == length;
    var total := CheckSendPre(smb.core, smb.writeBuff, length);
    FinishAny(smb.core, smb.transferId, smb.slaveAddr, pre, pdu);
    ret := smb.port.Write(smb.writeBuff, total);
  }

  lemma AreaInBuffer(core: Core, q: Query, request: seq<byte>, response: seq<byte>)
    requires |request| == |response| == MAX_ADU && q == QueryOf(core, request) && q.Ask?
    ensures CheckAddrNum(q.function_, q.addr, q.num) && 0 < q.num <= 2000
    ensures q.function_ == WRITE_COIL || q.function_ == WRITE_REGISTER ==> q.num == 1
    ensures IsRead(q.function_) || IsWrite(q.function_)
    ensures var at, area := AreaStart(core, q.function_), AreaOf(core, q, request, response);
            && LegalCall(q.function_, q.addr, q.num, area) && at + |area| <= MAX_ADU
            && (IsRead(q.function_) ==> area == response[at..at + |area|])
            && (IsWrite(q.function_) ==> area == Payload(q.function_, q.num, request[at..at + |area|]))
  {
    AskIsLegal(core, request, response);
    var at, size := AreaStart(core, q.function_), AreaSize(q.function_, q.num);
    if IsWrite(q.function_) {
      assert request[at..at + size][..size] == request[at..at + size];
    }
  }

  lemma ReplyForms(pre: seq<byte>, f: byte, rc: int, room: seq<byte>, echo: seq<byte>)
    requires AnswerFits(f, rc) && (IsRead(f) ==> |room| >= MAX_PAYLOAD) && |echo| == 4
    ensures !Taken(f, rc) ==>
              ReplyPdu(f, rc, room, echo) ==
              ExceptionPdu(f, ExceptionCode(rc, if IsSingleWrite(f) then MODBUS_EXCEPTION_ILLEGAL_DATA_VALUE
                                                else MODBUS_EXCEPTION))
    ensures Taken(f, rc) && IsRead(f) ==>
              pre + ReplyPdu(f, rc, room, echo) == pre + [f, AreaSize(f, rc)] + Payload(f, rc, room)
    ensures Taken(f, rc) && IsWrite(f) ==> pre + ReplyPdu(f, rc, room, echo) == pre + [f] + echo
  {
  }

  /** The cases of modbus_slave_handle that consult the callback. */
  method ServeAsk<S(!new)>(smb: SmallModbus, request: array<byte>, q: Query, cb: Option<Callback<S>>, state: S,
                           ghost area: seq<byte>)
    returns (length: nat, state': S, ghost pre: seq<byte>)
    requires smb.Valid() && request.Length == MAX_ADU && request != smb.writeBuff
    requires q == QueryOf(smb.core, request[..]) && q.Ask?
    requires area == AreaOf(smb.core, q, request[..], smb.writeBuff[..])
    requires LegalCall(q.function_, q.addr, q.num, area) && 0 < q.num <= 2000
    requires cb.Some? ==> WellBehaved(cb.value)
    modifies smb.writeBuff, request
    ensures IsPreamble(smb.core, smb.transferId, smb.slaveAddr, pre) && length + smb.core.Checksum() <= MAX_ADU
    ensures AreaStart(smb.core, q.function_) + |area| <= MAX_ADU
    ensures var a, h := Consult(cb, state, q, area), smb.core.Header();
            && state' == a.state
            && Holds(smb.writeBuff, length,
                     pre + ReplyPdu(q.function_, a.rc,
                                    RoomOf(smb.core, q.function_, a.area, old(smb.writeBuff[..])),
                                    old(request[h + 1..h + 5])))
  {
    hide Consult, Payload, IsPreamble, ReplyPdu, AreaOf, QueryOf;
    var h, rc, ok := smb.core.Header(), 0, false;
    ghost var echo := request[h + 1..h + 5];
    ghost var a := Consult(cb, state, q, area);
    AreaInBuffer(smb.core, q, request[..], smb.writeBuff[..]);
    ghost var room := RoomOf(smb.core, q.function_, a.area, smb.writeBuff[..]);
    EchoFields(smb.core, request[..]);
    if IsRead(q.function_) {
      length, rc, ok, state', pre := ServeRead(smb, q, cb, state, area);
    } else {
      var value := Word(request[h + 3], request[h + 4]);
      QueryAddr(smb.core, request[..]);
      length, rc, ok, state', pre := ServeWrite(smb, request, q, value, cb, state, area);
    }
    if !ok {
      var code := if q.function_ == WRITE_COIL || q.function_ == WRITE_REGISTER
                  then MODBUS_EXCEPTION_ILLEGAL_DATA_VALUE else MODBUS_EXCEPTION;
      length, pre := PutException(smb, q.function_, rc, code);
    }
    ReplyForms(pre, q.function_, rc, room, echo);
  }

  lemma QueryAddr(core: Core, request: seq<byte>)
    requires |request| >= core.Header() + 5 && QueryOf(core, request).Ask?
    ensures QueryOf(core, request).addr == Word(request[core.Header() + 1], request[core.Header() + 2])
  {
  }

  /** The switch of modbus_slave_handle, up to the callback. */
  method Decide(core: Core, request: array<byte>) returns (q: Query)
    requires request.Length == MAX_ADU
    ensures q == QueryOf(core, request[..])
  {
    var h := core.Header();
    var function_ := request[h];
    if function_ == READ_COILS || function_ == READ_INPUTS ||
       function_ == READ_HOLDING || function_ == READ_INPUT_REGISTERS ||
       function_ == WRITE_COILS || function_ == WRITE_REGISTERS {
      var addr, num := Word(request[h + 1], request[h + 2]), Word(request[h + 3], request[h + 4]);
      if CheckAddrNum(function_, addr, num) {
        q := Ask(function_, addr, num);
      } else {
        q := Refuse(MODBUS_EXCEPTION_ILLEGAL_DATA_VALUE);
      }
    } else if function_ == WRITE_COIL || function_ == WRITE_REGISTER {
      q := Ask(function_, Word(request[h + 1], request[h + 2]), 1);
    } else if function_ == REPORT_SLAVE_ID {
      q := Identify;
    } else {
      q := Refuse(MODBUS_EXCEPTION_ILLEGAL_FUNCTION);
    }
  }

  /**
   * modbus_slave_handle: every frame handed to it is answered by exactly one application data unit,
   * which carries the PDU that Serve describes; the application state changes as Serve says.
   */
  method SlaveHandle<S(!new)>(smb: SmallModbus, request: array<byte>, cb: Option<Callback<S>>, state: S)
    returns (ret: int, state': S)
    requires smb.Valid() && request.Length == MAX_ADU && request != smb.writeBuff
    requires cb.Some? ==> WellBehaved(cb.value)
    modifies smb.writeBuff, request, smb.port`sent
    ensures var served := Serve(smb.core, smb.slaveAddr, old(request[..]), old(smb.writeBuff[..]), cb, state);
            var frame := Adu(smb.core, smb.transferId, smb.slaveAddr, served.pdu);
            && state' == served.state
            && ret == |frame| <= MAX_ADU && smb.port.sent == old(smb.port.sent) + [frame]
  {
    var q := Decide(smb.core, request);
    var f := request[smb.core.Header()];
    ghost var served := Serve(smb.core, smb.slaveAddr, request[..], smb.writeBuff[..], cb, state);
    var length: nat;
    ghost var pre: seq<byte>;
    match q {
      case Refuse(code) =>
        state' := state;
        length, pre := PutException(smb, f, 0, code);
      case Identify =>
        state' := state;
        length, pre := PutIdentity(smb);
      case Ask(_, _, _) =>
        AreaInBuffer(smb.core, q, request[..], smb.writeBuff[..]);
        length, state', pre := ServeAsk(smb, request, q, cb, state,
                                          AreaOf(smb.core, q, request[..], smb.writeBuff[..]));
    }
    ret := SendReply(smb, length, pre, served.pdu);
  }

  /**
   * modbus_slave_wait_handle: nothing is sent and nothing changes unless a whole frame arrived that is
   * intact and addressed to this slave; then it is answered.
   */
  method SlaveWaitHandle<S(!new)>(smb: SmallModbus, cb: Option<Callback<S>>, state: S, waitTime: int)
    returns (ret: int, state': S, ghost taken: nat, ghost failed: bool)
    requires smb.Valid() && (cb.Some? ==> WellBehaved(cb.value))
    modifies smb.readBuff, smb.writeBuff, smb.port, smb`transferId
    ensures taken <= |old(smb.port.Stream())| && smb.port.Stream() == old(smb.port.Stream())[taken..]
            && taken <= MAX_ADU
    ensures Rest(smb.port.plan, old(smb.port.plan))
    ensures failed ==> CutShort(smb.port, taken, ret) && ScanRequest(smb.core, old(smb.port.Stream())[..taken]) == More
                       && state' == state && smb.port.sent == old(smb.port.sent)
    ensures !failed ==>
              var stream := old(smb.port.Stream());
              match ScanRequest(smb.core, stream)
              case More => false
              case TooLong(seen) => taken == seen && ret == MODBUS_FAIL && state' == state
                                    && smb.port.sent == old(smb.port.sent)
              case Whole(n) =>
                var verdict := RequestVerdict(smb.core, smb.slaveAddr, stream[..n]);
                && taken == n
                && smb.transferId == RememberedId(smb.core, smb.slaveAddr, old(smb.transferId), stream[..n])
                && (verdict < 0 ==> ret == verdict && state' == state && smb.port.sent == old(smb.port.sent))
                && (verdict >= 0 ==>
                      var served := Serve(smb.core, smb.slaveAddr, Overwrite(old(smb.readBuff[..]), 0, stream[..n]),
                                          old(smb.writeBuff[..]), cb, state);
                      var frame := Adu(smb.core, smb.transferId, smb.slaveAddr, served.pdu);
                      && state' == served.state
                      && ret == |frame| && smb.port.sent == old(smb.port.sent) + [frame])
  {
    hide Serve, Adu, RememberedId, Intact, Rest, Overwrite;
    state' := state;
    ret, taken, failed := SlaveWait(smb, smb.readBuff, waitTime);
    if 0 > ret {
      return;
    }
    ret, state' := SlaveHandle(smb, smb.readBuff, cb, state);
  }
}
