// Master and slave together: a call on the master is a call of the slave's callback.

module Remote {
  import opened Bytes
  import opened Codec
  import opened Cores
  import opened Framing
  import opened Protocol
  import opened Exchange

  /** A frame as the slave finds it in its request buffer, over what was there before. */
  function InBuffer(frame: seq<byte>, stale: seq<byte>): (buffer: seq<byte>)
    requires |frame| <= MAX_ADU == |stale|
    ensures |buffer| == MAX_ADU
  {
    Overwrite(stale, 0, frame)
  }

  /** Everything about one call that the two sides do not determine: leftovers in the slave's buffers. */
  datatype Leftovers = Leftovers(readBuff: seq<byte>, writeBuff: seq<byte>) {
    predicate Valid() { |readBuff| == MAX_ADU && |writeBuff| == MAX_ADU }
  }

  datatype Remotely<+S> = Remotely(state: S, result: Confirmed)

  /** What modbus_slave_wait_handle makes of a stream: the new state and the octets it sends. */
  function SlaveSide<S(!new)>(core: Core, slaveAddr: byte, tid: word, stream: seq<byte>, old_: Leftovers,
                              cb: Option<Callback<S>>, state: S): (S, seq<byte>)
    requires old_.Valid() && (cb.Some? ==> WellBehaved(cb.value))
  {
    match ScanRequest(core, stream)
    case Whole(n) =>
      if RequestVerdict(core, slaveAddr, stream[..n]) < 0 then (state, [])
      else
        var served := Serve(core, slaveAddr, InBuffer(stream[..n], old_.readBuff), old_.writeBuff, cb, state);
        (served.state, Adu(core, RememberedId(core, slaveAddr, tid, stream[..n]), slaveAddr, served.pdu))
    case _ => (state, [])
  }

  /** A master's call over a loss-free link: its frame goes to the slave, the slave's reply comes back. */
  function RemoteCall<S(!new)>(core: Core, tid: word, slaveTid: word, slaveAddr: byte, r: Request, old_: Leftovers,
                               cb: Option<Callback<S>>, state: S): Remotely<S>
    requires r.Legal() && old_.Valid() && (cb.Some? ==> WellBehaved(cb.value))
  {
    var frame := Adu(core, tid, slaveAddr, RequestPdu(r));
    AduCarries(core, tid, slaveAddr, RequestPdu(r));
    RequestIssued(core, frame, r);
    var (state', reply) := SlaveSide(core, slaveAddr, slaveTid, frame, old_, cb, state);
    Remotely(state', CallResult(core, slaveAddr, tid, frame, reply))
  }

  /** The area the callback gets on a call that comes over the link. */
  function RemoteArea(core: Core, r: Request, old_: Leftovers): seq<byte>
    requires r.Legal() && old_.Valid()
  {
    if IsWrite(r.function_) then HostData(r)
    else old_.writeBuff[core.Header() + 2..core.Header() + 2 + AreaSize(r.function_, r.num)]
  }

  function Asked(r: Request): Query
    requires r.Legal()
  {
    Ask(r.function_, r.addr % 0x1_0000, AskedFor(r))
  }

  lemma RemoteAreaLegal(core: Core, r: Request, old_: Leftovers)
    requires r.Legal() && old_.Valid()
    ensures LegalCall(r.function_, r.addr % 0x1_0000, AskedFor(r), RemoteArea(core, r, old_))
    ensures r.function_ < 0x80 && 0 < AskedFor(r) <= 2000 && (IsRead(r.function_) || IsWrite(r.function_))
  {
  }

  /** The slave's framer takes exactly a request's frame, and its checks let it through: to it, or to all. */
  lemma UnitAccepted(core: Core, tid: word, slaveTid: word, unit: byte, slaveAddr: byte, r: Request)
    requires r.Legal() && ForUs(slaveAddr, unit)
    ensures var frame := Adu(core, tid, unit, RequestPdu(r));
            && |frame| <= MAX_ADU && ScanRequest(core, frame) == Whole(|frame|)
            && RequestVerdict(core, slaveAddr, frame) == |frame|
            && RememberedId(core, slaveAddr, slaveTid, frame) == if core.TCP? then tid else slaveTid
  {
    hide Intact, RequestPdu, ScanRequest;
    var pdu := RequestPdu(r);
    AduIsIntact(core, tid, unit, pdu);
    AduCarries(core, tid, unit, pdu);
    RequestDelimited(core, r, Adu(core, tid, unit, pdu));
  }

  lemma SlaveAccepts(core: Core, tid: word, slaveTid: word, slaveAddr: byte, r: Request)
    requires r.Legal()
    ensures var frame := Adu(core, tid, slaveAddr, RequestPdu(r));
            && |frame| <= MAX_ADU && ScanRequest(core, frame) == Whole(|frame|)
            && RequestVerdict(core, slaveAddr, frame) == |frame|
            && (core.TCP? ==> RememberedId(core, slaveAddr, slaveTid, frame) == tid)
  {
    hide Adu, RequestPdu, ScanRequest, RequestVerdict, RememberedId;
    UnitAccepted(core, tid, slaveTid, slaveAddr, slaveAddr, r);
  }

  /** It understands what was meant, whatever its buffers held before. */
  lemma UnderstandsBuffer(core: Core, request: seq<byte>, r: Request, old_: Leftovers)
    requires r.Legal() && old_.Valid() && |request| == MAX_ADU && Carries(core, request, RequestPdu(r))
    ensures QueryOf(core, request) == Asked(r)
    ensures LegalCall(r.function_, r.addr % 0x1_0000, AskedFor(r), RemoteArea(core, r, old_))
    ensures CheckAddrNum(r.function_, r.addr % 0x1_0000, AskedFor(r)) && AskedFor(r) <= 2000
    ensures AreaOf(core, Asked(r), request, old_.writeBuff) == RemoteArea(core, r, old_)
  {
    QueryIsRequest(core, request, r);
    RemoteAreaLegal(core, r, old_);
    if IsWrite(r.function_) {
      DataArrives(core, request, old_.writeBuff, r, RequestPdu(r));
    }
  }

  /** The master accepts the slave's reply and frames exactly it. */
  lemma MasterAccepts(core: Core, tid: word, replyTid: word, slaveAddr: byte, pdu: seq<byte>)
    requires Announced(pdu) && core.Header() + |pdu| + core.Checksum() <= MAX_ADU && (core.TCP? ==> replyTid == tid)
    ensures var reply := Adu(core, replyTid, slaveAddr, pdu);
            && ScanReply(core, reply) == Whole(|reply|)
            && ResponseVerdict(core, slaveAddr, tid, reply) == |reply|
            && Carries(core, reply, pdu)
  {
    AduIsIntact(core, replyTid, slaveAddr, pdu);
    AduCarries(core, replyTid, slaveAddr, pdu);
    ReplyDelimited(core, pdu, Adu(core, replyTid, slaveAddr, pdu));
  }

  /** A callback's answer the code can act on, and the part of the response buffer behind it. */
  predicate Answered(r: Request, rc: int, area: seq<byte>, room: seq<byte>) {
    && AnswerFits(r.function_, rc) && |area| == AreaSize(r.function_, AskedFor(r)) && area <= room
    && (IsRead(r.function_) ==> |room| >= MAX_PAYLOAD)
  }

  /** What the decoder makes of a reply to the master's own request. */
  lemma ConfirmReply(core: Core, request: seq<byte>, reply: seq<byte>, r: Request, rc: int, area: seq<byte>,
                     room: seq<byte>, echo: seq<byte>)
    requires r.Legal() && Answered(r, rc, area, room) && |echo| == 4
    requires Carries(core, request, RequestPdu(r))
    requires var pdu := ReplyPdu(r.function_, rc, room, echo);
             Carries(core, reply, pdu) && |reply| == core.Header() + |pdu| + core.Checksum()
    ensures Issued(core, request)
    ensures Confirm(core, request, reply) == Outcome(r.function_, AskedFor(r), rc, area)
  {
    hide Confirm, Carries, RequestPdu, Issued;
    var f := r.function_;
    RequestIssued(core, request, r);
    if !Taken(f, rc) {
      var code := ExceptionCode(rc, if IsSingleWrite(f) then MODBUS_EXCEPTION_ILLEGAL_DATA_VALUE else MODBUS_EXCEPTION);
      ConfirmException(core, request, reply, f, code);
    } else if IsWrite(f) {
      ConfirmWrite(core, request, reply, r, echo);
    } else {
      TakenSize(f, rc);
      ConfirmRead(core, request, reply, r, rc, area, room);
    }
  }

  lemma CallResultOf(core: Core, slaveAddr: byte, tid: word, request: seq<byte>, reply: seq<byte>)
    requires Issued(core, request) && ScanReply(core, reply) == Whole(|reply|)
    requires ResponseVerdict(core, slaveAddr, tid, reply) == |reply|
    ensures CallResult(core, slaveAddr, tid, request, reply) == Confirm(core, request, reply)
  {
    assert reply[..|reply|] == reply;
  }

  /** What the master makes of the reply to its own request. */
  lemma ReplyConfirmed(core: Core, tid: word, replyTid: word, slaveAddr: byte, r: Request, rc: int, area: seq<byte>,
                       room: seq<byte>, echo: seq<byte>)
    requires r.Legal() && Answered(r, rc, area, room) && |echo| == 4
    requires core.TCP? ==> replyTid == tid
    ensures var request := Adu(core, tid, slaveAddr, RequestPdu(r));
            var reply := Adu(core, replyTid, slaveAddr, ReplyPdu(r.function_, rc, room, echo));
            && Issued(core, request)
            && CallResult(core, slaveAddr, tid, request, reply) == Outcome(r.function_, AskedFor(r), rc, area)
  {
    var pdu := ReplyPdu(r.function_, rc, room, echo);
    var request, reply := Adu(core, tid, slaveAddr, RequestPdu(r)), Adu(core, replyTid, slaveAddr, pdu);
    AduCarries(core, tid, slaveAddr, RequestPdu(r));
    ReplyAnnounced(r.function_, rc, room, echo);
    MasterAccepts(core, tid, replyTid, slaveAddr, pdu);
    ConfirmReply(core, request, reply, r, rc, area, room, echo);
    CallResultOf(core, slaveAddr, tid, request, reply);
  }

  /** The address and the quantity or value of a request, as the slave echoes them. */
  function EchoOf(r: Request): (echo: seq<byte>)
    requires r.Legal()
    ensures |echo| == 4
  {
    RequestPdu(r)[1..5]
  }

  /** The response buffer from the area on after the callback has answered. */
  function RoomAfter(core: Core, r: Request, area: seq<byte>, old_: Leftovers): (room: seq<byte>)
    requires r.Legal() && old_.Valid() && |area| == AreaSize(r.function_, AskedFor(r))
    ensures area <= room && (IsRead(r.function_) ==> |room| >= MAX_PAYLOAD)
  {
    RemoteAreaLegal(core, r, old_);
    AreaFits(core, r);
    RoomOf(core, r.function_, area, old_.writeBuff)
  }

  lemma AreaFits(core: Core, r: Request)
    requires r.Legal()
    ensures AskedFor(r) <= 2000 && AreaStart(core, r.function_) + AreaSize(r.function_, AskedFor(r)) <= MAX_ADU
    ensures IsRead(r.function_) ==> MAX_ADU - AreaStart(core, r.function_) >= MAX_PAYLOAD
  {
  }

  /** Serving a buffer that carries the master's request is consulting the callback about it. */
  lemma ServeOf<S(!new)>(core: Core, slaveAddr: byte, r: Request, request: seq<byte>, old_: Leftovers,
                         cb: Option<Callback<S>>, state: S)
    requires r.Legal() && old_.Valid() && (cb.Some? ==> WellBehaved(cb.value))
    requires |request| == MAX_ADU && Carries(core, request, RequestPdu(r))
    ensures LegalCall(r.function_, r.addr % 0x1_0000, AskedFor(r), RemoteArea(core, r, old_))
    ensures var a := Consult(cb, state, Asked(r), RemoteArea(core, r, old_));
            && Answered(r, a.rc, a.area, RoomAfter(core, r, a.area, old_))
            && Serve(core, slaveAddr, request, old_.writeBuff, cb, state) ==
               Served(a.state, ReplyPdu(r.function_, a.rc, RoomAfter(core, r, a.area, old_), EchoOf(r)))
  {
    UnderstandsBuffer(core, request, r, old_);
    AskIsLegal(core, request, old_.writeBuff);
    SliceOfCarried(core, request, RequestPdu(r), 1, 4);
  }

  /** What a slave answers to a request, once it has accepted it. */
  function AnswerTo<S(!new)>(core: Core, replyTid: word, slaveAddr: byte, r: Request, old_: Leftovers,
                             cb: Option<Callback<S>>, state: S): (S, seq<byte>)
    requires r.Legal() && old_.Valid() && (cb.Some? ==> WellBehaved(cb.value))
  {
    RemoteAreaLegal(core, r, old_);
    var a := Consult(cb, state, Asked(r), RemoteArea(core, r, old_));
    (a.state, Adu(core, replyTid, slaveAddr,
                  ReplyPdu(r.function_, a.rc, RoomAfter(core, r, a.area, old_), EchoOf(r))))
  }

  /** What the slave does with a request's frame, to it or to all: it consults its callback and answers. */
  lemma SlaveSideFor<S(!new)>(core: Core, tid: word, slaveTid: word, unit: byte, slaveAddr: byte, r: Request,
                              frame: seq<byte>, old_: Leftovers, cb: Option<Callback<S>>, state: S)
    requires r.Legal() && old_.Valid() && (cb.Some? ==> WellBehaved(cb.value)) && ForUs(slaveAddr, unit)
    requires frame == Adu(core, tid, unit, RequestPdu(r))
    ensures SlaveSide(core, slaveAddr, slaveTid, frame, old_, cb, state) ==
            AnswerTo(core, if core.TCP? then tid else slaveTid, slaveAddr, r, old_, cb, state)
  {
    hide Serve, RequestPdu, Consult, ReplyPdu, Carries, Intact, ScanRequest, LegalCall;
    UnitAccepted(core, tid, slaveTid, unit, slaveAddr, r);
    assert frame[..|frame|] == frame;
    AduCarries(core, tid, unit, RequestPdu(r));
    BufferCarries(core, frame, RequestPdu(r), old_.readBuff);
    ServeOf(core, slaveAddr, r, InBuffer(frame, old_.readBuff), old_, cb, state);
  }

  /** The same for the slave's own address, part by part. */
  lemma SlaveSideOf<S(!new)>(core: Core, tid: word, slaveTid: word, slaveAddr: byte, r: Request, frame: seq<byte>,
                             old_: Leftovers, cb: Option<Callback<S>>, state: S)
    returns (echo: seq<byte>, room: seq<byte>)
    requires r.Legal() && old_.Valid() && (cb.Some? ==> WellBehaved(cb.value))
    requires frame == Adu(core, tid, slaveAddr, RequestPdu(r))
    ensures LegalCall(r.function_, r.addr % 0x1_0000, AskedFor(r), RemoteArea(core, r, old_))
    ensures |echo| == 4 && |frame| > core.Header() + core.Checksum()
    ensures var a := Consult(cb, state, Asked(r), RemoteArea(core, r, old_));
            && Answered(r, a.rc, a.area, room)
            && SlaveSide(core, slaveAddr, slaveTid, frame, old_, cb, state) ==
               (a.state, Adu(core, RememberedId(core, slaveAddr, slaveTid, frame), slaveAddr,
                             ReplyPdu(r.function_, a.rc, room, echo)))
  {
    hide Serve, SlaveSide, RequestPdu, Consult, ReplyPdu, Carries, Intact, ScanRequest, LegalCall;
    UnitAccepted(core, tid, slaveTid, slaveAddr, slaveAddr, r);
    SlaveSideFor(core, tid, slaveTid, slaveAddr, slaveAddr, r, frame, old_, cb, state);
    RemoteAreaLegal(core, r, old_);
    var a := Consult(cb, state, Asked(r), RemoteArea(core, r, old_));
    echo, room := EchoOf(r), RoomAfter(core, r, a.area, old_);
  }

  /** A request to all units is served like one to this slave's own address. */
  lemma UnitIsImmaterial<S(!new)>(core: Core, tid: word, slaveTid: word, unit: byte, slaveAddr: byte, r: Request,
                                  old_: Leftovers, cb: Option<Callback<S>>, state: S)
    requires r.Legal() && old_.Valid() && (cb.Some? ==> WellBehaved(cb.value)) && ForUs(slaveAddr, unit)
    ensures SlaveSide(core, slaveAddr, slaveTid, Adu(core, tid, unit, RequestPdu(r)), old_, cb, state) ==
            SlaveSide(core, slaveAddr, slaveTid, Adu(core, tid, slaveAddr, RequestPdu(r)), old_, cb, state)
  {
    hide SlaveSide, AnswerTo, RequestPdu;
    var there, here := Adu(core, tid, unit, RequestPdu(r)), Adu(core, tid, slaveAddr, RequestPdu(r));
    SlaveSideFor(core, tid, slaveTid, unit, slaveAddr, r, there, old_, cb, state);
    SlaveSideFor(core, tid, slaveTid, slaveAddr, slaveAddr, r, here, old_, cb, state);
  }

  /**
   * One call over the link is one call of the callback: the slave's application sees the function,
   * address, quantity and data the master's application gave, and the master's application gets the
   * callback's answer.
   */
  lemma RemoteCallIsCallback<S(!new)>(core: Core, tid: word, slaveTid: word, slaveAddr: byte, r: Request,
                                      old_: Leftovers, cb: Option<Callback<S>>, state: S)
    requires r.Legal() && old_.Valid() && (cb.Some? ==> WellBehaved(cb.value))
    ensures LegalCall(r.function_, r.addr % 0x1_0000, AskedFor(r), RemoteArea(core, r, old_))
    ensures var a := Consult(cb, state, Asked(r), RemoteArea(core, r, old_));
            RemoteCall(core, tid, slaveTid, slaveAddr, r, old_, cb, state) ==
            Remotely(a.state, Outcome(r.function_, AskedFor(r), a.rc, a.area))
  {
    var frame := Adu(core, tid, slaveAddr, RequestPdu(r));
    var echo, room := SlaveSideOf(core, tid, slaveTid, slaveAddr, r, frame, old_, cb, state);
    var a := Consult(cb, state, Asked(r), RemoteArea(core, r, old_));
    SlaveAccepts(core, tid, slaveTid, slaveAddr, r);
    ReplyConfirmed(core, tid, RememberedId(core, slaveAddr, slaveTid, frame), slaveAddr, r, a.rc, a.area, room, echo);
  }
}
