// One request, its service and its reply: the four places that do length arithmetic agree, and what
// the master asked is what the callback is asked, and what the callback answered is what the master gets.

module Exchange {
  import opened Bytes
  import opened Codec
  import opened Cores
  import opened Framing
  import opened Protocol

  /** A stream or buffer whose first unit has this PDU. */
  predicate Carries(core: Core, s: seq<byte>, pdu: seq<byte>) {
    var h := core.Header();
    |s| >= h + |pdu| + core.Checksum() && s[h..h + |pdu|] == pdu
  }

  lemma CarriesAt(core: Core, s: seq<byte>, pdu: seq<byte>, i: nat)
    requires Carries(core, s, pdu) && i < |pdu|
    ensures s[core.Header() + i] == pdu[i]
  {
    assert s[core.Header()..core.Header() + |pdu|][i] == pdu[i];
  }

  lemma CarriesMore(core: Core, frame: seq<byte>, pdu: seq<byte>, rest: seq<byte>)
    requires Carries(core, frame, pdu)
    ensures Carries(core, frame + rest, pdu)
  {
    var h := core.Header();
    assert (frame + rest)[h..h + |pdu|] == frame[h..h + |pdu|];
  }

  lemma AduCarries(core: Core, tid: word, slave: byte, pdu: seq<byte>)
    requires 1 <= |pdu| && core.Header() + |pdu| + core.Checksum() <= MAX_ADU
    ensures Carries(core, Adu(core, tid, slave, pdu), pdu)
  {
    AduIsIntact(core, tid, slave, pdu);
  }

  /** A buffer that holds the unit carries the PDU, whatever lies behind it. */
  lemma BufferCarries(core: Core, frame: seq<byte>, pdu: seq<byte>, stale: seq<byte>)
    requires Carries(core, frame, pdu) && |frame| <= |stale|
    ensures Carries(core, Overwrite(stale, 0, frame), pdu)
  {
    var h := core.Header();
    assert Overwrite(stale, 0, frame)[h..h + |pdu|] == frame[h..h + |pdu|];
  }

  // ---------- Requests ----------

  /** A request PDU has exactly the length its function code and count octet announce. */
  lemma RequestLength(r: Request)
    requires r.Legal()
    ensures var pdu := RequestPdu(r);
            && pdu[0] == r.function_ && pdu[1] == Hi(r.addr) && pdu[2] == Lo(r.addr)
            && |pdu| == 1 + RequestFixed(r.function_) + (if IsWriteMultiple(r.function_) then pdu[5] else 0)
  {
  }

  /** Request units delimit themselves: in any stream that starts with one, the framer stops at its end. */
  lemma RequestDelimited(core: Core, r: Request, s: seq<byte>)
    requires r.Legal() && Carries(core, s, RequestPdu(r))
    ensures ScanRequest(core, s) == Whole(core.Header() + |RequestPdu(r)| + core.Checksum())
  {
    var pdu := RequestPdu(r);
    RequestLength(r);
    CarriesAt(core, s, pdu, 0);
    if IsWriteMultiple(r.function_) {
      CarriesAt(core, s, pdu, 5);
    }
  }

  /** The quantity the callback is asked for. */
  function AskedFor(r: Request): word {
    if r.function_ == WRITE_COIL || r.function_ == WRITE_REGISTER then 1 else r.num
  }

  lemma HeadOfPdu(r: Request)
    requires r.Legal()
    ensures var pdu := RequestPdu(r);
            && pdu[0] == r.function_ && pdu[1] == Hi(r.addr) && pdu[2] == Lo(r.addr)
            && (r.function_ != WRITE_COIL && r.function_ != WRITE_REGISTER ==>
                  pdu[3] == Hi(r.num) && pdu[4] == Lo(r.num))
  {
    hide SwapPairs;
  }

  lemma HeadFields(core: Core, s: seq<byte>, r: Request)
    requires r.Legal() && Carries(core, s, RequestPdu(r))
    ensures var h := core.Header();
            && s[h] == r.function_ && Word(s[h + 1], s[h + 2]) == r.addr % 0x1_0000
            && (r.function_ != WRITE_COIL && r.function_ != WRITE_REGISTER ==> Word(s[h + 3], s[h + 4]) == r.num)
  {
    hide RequestPdu, Carries, Word, Hi, Lo;
    var pdu := RequestPdu(r);
    HeadOfPdu(r);
    CarriesAt(core, s, pdu, 0);
    CarriesAt(core, s, pdu, 1);
    CarriesAt(core, s, pdu, 2);
    CarriesAt(core, s, pdu, 3);
    CarriesAt(core, s, pdu, 4);
    WordOfBytes(r.addr, 0, 0);
    WordOfBytes(r.num, 0, 0);
  }

  /** The slave puts to its callback the function, address and quantity the application gave the master. */
  lemma QueryIsRequest(core: Core, s: seq<byte>, r: Request)
    requires r.Legal() && Carries(core, s, RequestPdu(r))
    ensures QueryOf(core, s) == Ask(r.function_, r.addr % 0x1_0000, AskedFor(r))
  {
    HeadFields(core, s, r);
  }

  /** The data of a write as the slave's callback receives it. */
  function HostData(r: Request): seq<byte>
    requires r.Legal() && IsWrite(r.function_)
  {
    if r.function_ == WRITE_COIL then [if r.data[0] != 0 then 0xFF else 0x00]
    else r.data[..HostSize(r.function_, r.num)]
  }

  lemma SliceOfSlice(s: seq<byte>, a: nat, b: nat, c: nat, d: nat)
    requires a <= b <= |s| && c <= d <= b - a
    ensures s[a..b][c..d] == s[a + c..a + d]
  {
    forall i | 0 <= i < d - c ensures s[a..b][c..d][i] == s[a + c..a + d][i] {
    }
  }

  lemma SliceOfCarried(core: Core, s: seq<byte>, pdu: seq<byte>, at: nat, size: nat)
    requires Carries(core, s, pdu) && at + size <= |pdu|
    ensures s[core.Header() + at..core.Header() + at + size] == pdu[at..at + size]
  {
    var h := core.Header();
    SliceOfSlice(s, h, h + |pdu|, at, at + size);
  }

  /** The data octets of a write inside its PDU. */
  function DataStart(f: byte): nat { if IsWriteMultiple(f) then 6 else 3 }

  lemma PduOfCoil(r: Request)
    requires r.Legal() && r.function_ == WRITE_COIL
    ensures |RequestPdu(r)| == 5 && RequestPdu(r)[3..4] == HostData(r)
  {
  }

  lemma PduOfRegister(r: Request)
    requires r.Legal() && r.function_ == WRITE_REGISTER
    ensures |RequestPdu(r)| == 5 && |HostData(r)| == 2 && RequestPdu(r)[3..5] == SwapPairs(HostData(r))
  {
  }

  lemma PduOfCoils(r: Request)
    requires r.Legal() && r.function_ == WRITE_COILS
    ensures |RequestPdu(r)| == 6 + BitBytes(r.num) && RequestPdu(r)[6..6 + BitBytes(r.num)] == HostData(r)
  {
  }

  lemma PduOfRegisters(r: Request)
    requires r.Legal() && r.function_ == WRITE_REGISTERS
    ensures |RequestPdu(r)| == 6 + 2 * r.num && |HostData(r)| == 2 * r.num
    ensures RequestPdu(r)[6..6 + 2 * r.num] == SwapPairs(HostData(r))
  {
  }

  /** The area of a write query, read off the PDU the buffer carries. */
  lemma AreaFromPdu(core: Core, s: seq<byte>, response: seq<byte>, pdu: seq<byte>, f: byte, addr: word, num: word,
                    host: seq<byte>)
    requires IsWrite(f) && |s| == |response| == MAX_ADU && Carries(core, s, pdu)
    requires CheckAddrNum(f, addr, num) && num <= 2000 && (f == WRITE_COIL || f == WRITE_REGISTER ==> num == 1)
    requires DataStart(f) + AreaSize(f, num) <= |pdu|
    requires IsBitFunction(f) ==> pdu[DataStart(f)..DataStart(f) + AreaSize(f, num)] == host
    requires !IsBitFunction(f) ==>
               |host| % 2 == 0 && pdu[DataStart(f)..DataStart(f) + AreaSize(f, num)] == SwapPairs(host)
    ensures AreaOf(core, Ask(f, addr, num), s, response) == host
  {
    SliceOfCarried(core, s, pdu, DataStart(f), AreaSize(f, num));
    if !IsBitFunction(f) {
      SwapTwice(host);
    }
  }

  /** A write reaches the callback with the octets the application handed to the master. */
  lemma DataArrives(core: Core, s: seq<byte>, response: seq<byte>, r: Request, pdu: seq<byte>)
    requires r.Legal() && IsWrite(r.function_) && |s| == |response| == MAX_ADU
    requires pdu == RequestPdu(r) && Carries(core, s, pdu)
    ensures CheckAddrNum(r.function_, r.addr % 0x1_0000, AskedFor(r)) && AskedFor(r) <= 2000
    ensures AreaOf(core, Ask(r.function_, r.addr % 0x1_0000, AskedFor(r)), s, response) == HostData(r)
  {
    var f := r.function_;
    if f == WRITE_COIL {
      PduOfCoil(r);
    } else if f == WRITE_REGISTER {
      PduOfRegister(r);
    } else if f == WRITE_COILS {
      PduOfCoils(r);
    } else {
      PduOfRegisters(r);
    }
    AreaFromPdu(core, s, response, pdu, f, r.addr % 0x1_0000, AskedFor(r), HostData(r));
  }

  // ---------- Replies ----------

  /** A reply PDU whose length is the one its first two octets announce to the master's framer. */
  predicate Announced(pdu: seq<byte>) {
    |pdu| >= 2 && |pdu| == 1 + ReplyFixed(pdu[0]) + (if IsRead(pdu[0]) then pdu[1] else 0)
  }

  lemma ReplyDelimited(core: Core, pdu: seq<byte>, s: seq<byte>)
    requires Announced(pdu) && core.Header() + |pdu| + core.Checksum() <= MAX_ADU && Carries(core, s, pdu)
    ensures ScanReply(core, s) == Whole(core.Header() + |pdu| + core.Checksum())
  {
    CarriesAt(core, s, pdu, 0);
    CarriesAt(core, s, pdu, 1);
  }

  lemma ReplyAnnounced(f: byte, rc: int, room: seq<byte>, echo: seq<byte>)
    requires (IsRead(f) || IsWrite(f)) && AnswerFits(f, rc) && (IsRead(f) ==> |room| >= MAX_PAYLOAD) && |echo| == 4
    ensures Announced(ReplyPdu(f, rc, room, echo))
  {
    hide Payload, Flagged;
    FlaggedHigh(f);
    if Taken(f, rc) && IsRead(f) {
      TakenSize(f, rc);
      PayloadSize(f, rc, room);
    }
  }

  lemma FlaggedHigh(f: byte)
    requires IsRead(f) || IsWrite(f)
    ensures Flagged(f) >= 0x80
  {
  }

  lemma PayloadSize(f: byte, n: word, room: seq<byte>)
    requires AreaSize(f, n) <= |room|
    ensures |Payload(f, n, room)| == AreaSize(f, n)
  {
  }

  /** What the application on the master's side gets from a callback's answer to its request. */
  function Outcome(f: byte, num: word, rc: int, area: seq<byte>): Confirmed {
    if !Taken(f, rc) then Confirmed(-(f as int + 0x80), None)
    else if IsRead(f) && rc < 0x1_0000 && AreaSize(f, rc) == AreaSize(f, num) then Confirmed(MODBUS_OK, Some(area))
    else Confirmed(MODBUS_OK, None)
  }

  lemma RequestIssued(core: Core, s: seq<byte>, r: Request)
    requires r.Legal() && Carries(core, s, RequestPdu(r))
    ensures Issued(core, s) && s[core.Header()] == r.function_
    ensures IsRead(r.function_) ==> Quantity(core.Header(), s) == r.num
  {
    HeadFields(core, s, r);
  }

  lemma ReplyParts(core: Core, s: seq<byte>, pdu: seq<byte>)
    requires Carries(core, s, pdu) && |pdu| >= 2
    ensures s[core.Header()] == pdu[0] && s[core.Header() + 1] == pdu[1]
    ensures s[core.Header() + 2..core.Header() + |pdu|] == pdu[2..]
  {
    CarriesAt(core, s, pdu, 0);
    CarriesAt(core, s, pdu, 1);
    SliceOfCarried(core, s, pdu, 2, |pdu| - 2);
  }

  /** An exception reply ends the master's call with minus its function octet. */
  lemma ConfirmException(core: Core, request: seq<byte>, reply: seq<byte>, f: byte, code: int)
    requires Issued(core, request) && f < 0x80 && Carries(core, reply, ExceptionPdu(f, code))
    ensures Confirm(core, request, reply) == Confirmed(-(f as int + 0x80), None)
  {
    ReplyParts(core, reply, ExceptionPdu(f, code));
  }

  lemma ConfirmWrite(core: Core, request: seq<byte>, reply: seq<byte>, r: Request, echo: seq<byte>)
    requires r.Legal() && IsWrite(r.function_) && Carries(core, request, RequestPdu(r))
    requires |echo| == 4 && Carries(core, reply, [r.function_] + echo)
    ensures Issued(core, request) && Confirm(core, request, reply) == Confirmed(MODBUS_OK, None)
  {
    RequestIssued(core, request, r);
    CarriesAt(core, reply, [r.function_] + echo, 0);
  }

  /** calc_length without its 16-bit arithmetic, for the functions the master issues. */
  lemma ExpectedFor(core: Core, request: seq<byte>)
    requires Issued(core, request)
    ensures var h, f := core.Header(), request[core.Header()];
            && (IsRead(f) ==> AreaSize(f, Quantity(h, request)) <= 250
                              && ExpectedLength(core, request)
                                 == h + core.Checksum() + 2 + AreaSize(f, Quantity(h, request)))
            && (IsWrite(f) ==> ExpectedLength(core, request) == h + core.Checksum() + 5)
  {
  }

  /**
   * The framer's length for a reply with the issued function code is the length the decoder expects
   * exactly when a read reply's count octet matches the quantity asked for; always for a write.
   */
  lemma LengthAgreement(core: Core, request: seq<byte>, s: seq<byte>, n: nat)
    requires Issued(core, request) && ScanReply(core, s) == Whole(n)
    requires s[core.Header()] == request[core.Header()]
    ensures ExpectedLength(core, request) == n <==>
            (IsRead(s[core.Header()]) ==>
               s[core.Header() + 1] == AreaSize(s[core.Header()], Quantity(core.Header(), request)))
  {
    ExpectedFor(core, request);
  }

  lemma SliceOfPrefix(s: seq<byte>, n: nat, a: nat, b: nat)
    requires a <= b <= n <= |s|
    ensures s[..n][a..b] == s[a..b]
  {
  }

  /** And then read_data is exactly the payload, decoded for the number of elements asked for. */
  lemma DecodedExactly(core: Core, request: seq<byte>, s: seq<byte>, n: nat)
    requires Issued(core, request) && IsRead(request[core.Header()]) && ScanReply(core, s) == Whole(n)
    requires s[core.Header()] == request[core.Header()]
    ensures var h, f := core.Header(), request[core.Header()];
            var c := Confirm(core, request, s[..n]);
            && c.ret == MODBUS_OK
            && (c.read.Some? <==> s[h + 1] == AreaSize(f, Quantity(h, request)))
            && (c.read.Some? ==> c.read.value == Payload(f, Quantity(h, request), s[h + 2..n - core.Checksum()]))
  {
    hide Payload, SwapPairs, ExpectedLength;
    var h := core.Header();
    LengthAgreement(core, request, s, n);
    ExpectedFor(core, request);
    var size := AreaSize(request[h], Quantity(h, request));
    if s[h + 1] == size {
      SliceOfPrefix(s, n, h + 2, h + 2 + size);
    }
  }

  lemma PayloadTwice(f: byte, n: word, area: seq<byte>)
    requires |area| == AreaSize(f, n)
    ensures |Payload(f, n, area)| == |area| && Payload(f, n, Payload(f, n, area)) == area
  {
    assert area[..AreaSize(f, n)] == area;
    if !IsBitFunction(f) {
      SwapTwice(area);
      assert SwapPairs(area)[..AreaSize(f, n)] == SwapPairs(area);
    }
  }

  lemma PayloadOfRoom(f: byte, rc: word, n: word, area: seq<byte>, room: seq<byte>)
    requires AreaSize(f, rc) == AreaSize(f, n) == |area| && area <= room
    ensures Payload(f, rc, room) == Payload(f, n, area)
  {
    assert room[..|area|] == area == area[..|area|];
  }

  /** A read reply that carries `size` octets of payload is one frame, and its parts are where they belong. */
  lemma ReadReplyFramed(core: Core, reply: seq<byte>, f: byte, size: byte, payload: seq<byte>)
    requires IsRead(f) && |payload| == size && Carries(core, reply, [f, size] + payload)
    requires |reply| == core.Header() + 2 + size + core.Checksum() <= MAX_ADU
    ensures var h := core.Header();
            && ScanReply(core, reply) == Whole(|reply|) && reply[h] == f && reply[h + 1] == size
            && reply[h + 2..|reply| - core.Checksum()] == payload
  {
    var pdu := [f, size] + payload;
    ReplyParts(core, reply, pdu);
    assert pdu[2..] == payload;
    ReplyDelimited(core, pdu, reply);
  }

  lemma TakenSize(f: byte, rc: word)
    requires IsRead(f) && Taken(f, rc)
    ensures AreaSize(f, rc) <= MAX_PAYLOAD
  {
  }

  lemma ConfirmRead(core: Core, request: seq<byte>, reply: seq<byte>, r: Request, rc: word, area: seq<byte>,
                    room: seq<byte>)
    requires r.Legal() && IsRead(r.function_) && Carries(core, request, RequestPdu(r))
    requires Taken(r.function_, rc) && |area| == AreaSize(r.function_, r.num)
    requires area <= room && |room| >= MAX_PAYLOAD >= AreaSize(r.function_, rc)
    requires Carries(core, reply, [r.function_, AreaSize(r.function_, rc)] + Payload(r.function_, rc, room))
    requires |reply| == core.Header() + 2 + AreaSize(r.function_, rc) + core.Checksum()
    ensures Issued(core, request)
    ensures Confirm(core, request, reply) == Outcome(r.function_, r.num, rc, area)
  {
    hide Carries, ScanReply, SwapPairs, Confirm, Taken, RequestPdu;
    var f, n := r.function_, r.num;
    RequestIssued(core, request, r);
    ReadReplyFramed(core, reply, f, AreaSize(f, rc), Payload(f, rc, room));
    assert reply[..|reply|] == reply;
    DecodedExactly(core, request, reply, |reply|);
    if AreaSize(f, rc) == AreaSize(f, n) {
      PayloadOfRoom(f, rc, n, area, room);
      PayloadTwice(f, n, area);
    }
  }
}
