// What modbus_slave_handle guarantees for every byte stream, whatever the callback does.

module SlaveFacts {
  import opened Bytes
  import opened Codec
  import opened Cores
  import opened Framing
  import opened Protocol
  import opened Exchange
  import opened Remote
  import opened Streams
  import Gf2
  import Crc
  import Integrity
  import C = Conformance
  import S = Standard

  // ---------- The callback is called legally ----------

  /** The slave's request buffer when a frame was accepted: whole, intact, and for this slave or all. */
  function Accepted(core: Core, slaveAddr: byte, stream: seq<byte>, old_: Leftovers): (buffer: Option<seq<byte>>)
    requires old_.Valid()
    ensures buffer.Some? ==> |buffer.value| == MAX_ADU && |stream| > core.Header()
                             && buffer.value[core.Header()] == stream[core.Header()]
  {
    match ScanRequest(core, stream)
    case Whole(n) =>
      if RequestVerdict(core, slaveAddr, stream[..n]) < 0 then None else Some(InBuffer(stream[..n], old_.readBuff))
    case _ => None
  }

  /** What a stream leads the slave to ask its callback, if anything. */
  function Question(core: Core, slaveAddr: byte, stream: seq<byte>, old_: Leftovers): Option<Query>
    requires old_.Valid()
  {
    match Accepted(core, slaveAddr, stream, old_)
    case None => None
    case Some(buffer) => var q := QueryOf(core, buffer); if q.Ask? then Some(q) else None
  }

  /**
   * Callback legality. A question reaches the callback only from a whole frame that is intact and for
   * this slave or for all; it names one of the eight functions, a quantity within that function's limit
   * (one for the single writes), and an area for that quantity inside the 260-octet buffer.
   */
  lemma CallbackLegality(core: Core, slaveAddr: byte, stream: seq<byte>, old_: Leftovers)
    requires old_.Valid() && Question(core, slaveAddr, stream, old_).Some?
    ensures var q := Question(core, slaveAddr, stream, old_).value;
            var n := ScanRequest(core, stream).length;
            && Intact(core, stream[..n]) && ForUs(slaveAddr, UnitAddress(core, stream[..n]))
            && q.function_ in {1, 2, 3, 4, 5, 6, 15, 16}
            && 1 <= q.num <= (if q.function_ in {1, 2} then 2000 else if q.function_ in {3, 4} then 125
                              else if q.function_ == 15 then 1968 else if q.function_ == 16 then 123 else 1)
            && core.Header() + 2 <= AreaStart(core, q.function_)
            && AreaStart(core, q.function_) + AreaSize(q.function_, q.num) <= MAX_ADU
  {
    var n := ScanRequest(core, stream).length;
    FramesFit(core, stream);
    AskIsLegal(core, InBuffer(stream[..n], old_.readBuff), old_.writeBuff);
  }

  /** With no question the application state stays as it is. */
  lemma NoQuestionNoChange<S(!new)>(core: Core, slaveAddr: byte, tid: word, stream: seq<byte>, old_: Leftovers,
                                    cb: Option<Callback<S>>, state: S)
    requires old_.Valid() && (cb.Some? ==> WellBehaved(cb.value))
    requires Question(core, slaveAddr, stream, old_).None?
    ensures SlaveSide(core, slaveAddr, tid, stream, old_, cb, state).0 == state
  {
  }

  // ---------- Every accepted request is answered once ----------

  /** Whether a request buffer gets a normal reply: the callback took it, or it asks for the identity. */
  predicate Succeeds<S(!new)>(core: Core, request: seq<byte>, response: seq<byte>, cb: Option<Callback<S>>, state: S)
    requires |request| == |response| == MAX_ADU && (cb.Some? ==> WellBehaved(cb.value))
  {
    var q := QueryOf(core, request);
    AskIsLegal(core, request, response);
    q.Identify? || (q.Ask? && Taken(q.function_, Consult(cb, state, q, AreaOf(core, q, request, response)).rc))
  }

  /** A reply carries the request's function code exactly when the request succeeds; otherwise it is an exception. */
  lemma ServedPdu<S(!new)>(core: Core, slaveAddr: byte, request: seq<byte>, response: seq<byte>,
                           cb: Option<Callback<S>>, state: S)
    requires |request| == |response| == MAX_ADU && (cb.Some? ==> WellBehaved(cb.value))
    ensures var f, pdu := request[core.Header()], Serve(core, slaveAddr, request, response, cb, state).pdu;
            if Succeeds(core, request, response, cb, state) then pdu[0] == f
            else |pdu| == 2 && pdu[0] == Flagged(f)
  {
    AskIsLegal(core, request, response);
  }

  lemma AduShape(core: Core, tid: word, slave: byte, pdu: seq<byte>)
    requires 2 <= |pdu| <= 252
    ensures var reply := Adu(core, tid, slave, pdu);
            && core.Header() + 2 + core.Checksum() <= |reply| == core.Header() + |pdu| + core.Checksum() <= MAX_ADU
            && UnitAddress(core, reply) == slave && Intact(core, reply) && reply[core.Header()] == pdu[0]
  {
    AduIsIntact(core, tid, slave, pdu);
    AduCarries(core, tid, slave, pdu);
    CarriesAt(core, Adu(core, tid, slave, pdu), pdu, 0);
  }

  /**
   * Reply totality. An accepted frame is answered by one intact unit from this slave that fits the
   * buffer, checksum included: with the same function code if the request succeeds, and otherwise with
   * one octet of exception code behind the function code plus 0x80.
   */
  lemma AnsweredOnce<S(!new)>(core: Core, slaveAddr: byte, tid: word, stream: seq<byte>, old_: Leftovers,
                              cb: Option<Callback<S>>, state: S)
    requires old_.Valid() && (cb.Some? ==> WellBehaved(cb.value))
    requires Accepted(core, slaveAddr, stream, old_).Some?
    ensures var f, buffer := stream[core.Header()], Accepted(core, slaveAddr, stream, old_).value;
            var reply := SlaveSide(core, slaveAddr, tid, stream, old_, cb, state).1;
            && core.Header() + 2 + core.Checksum() <= |reply| <= MAX_ADU
            && UnitAddress(core, reply) == slaveAddr && Intact(core, reply)
            && if Succeeds(core, buffer, old_.writeBuff, cb, state)
               then reply[core.Header()] == f
               else reply[core.Header()] == Flagged(f) && |reply| == core.Header() + 2 + core.Checksum()
  {
    var n := ScanRequest(core, stream).length;
    var buffer := Accepted(core, slaveAddr, stream, old_).value;
    ServedPdu(core, slaveAddr, buffer, old_.writeBuff, cb, state);
    AduShape(core, RememberedId(core, slaveAddr, tid, stream[..n]), slaveAddr,
             Serve(core, slaveAddr, buffer, old_.writeBuff, cb, state).pdu);
  }

  lemma SucceedsBelow80<S(!new)>(core: Core, request: seq<byte>, response: seq<byte>, cb: Option<Callback<S>>, state: S)
    requires |request| == |response| == MAX_ADU && (cb.Some? ==> WellBehaved(cb.value))
    requires Succeeds(core, request, response, cb, state)
    ensures request[core.Header()] < 0x80
  {
  }

  /**
   * What a master sees of a refusal: the reply to an accepted frame is marked as an exception exactly when
   * the request fails and its function code is below 0x80. Codes from 0x80 on are answered too, but code
   * plus 0x80 wraps around and the reply looks like a normal one.
   */
  lemma ExceptionRecognisable<S(!new)>(core: Core, slaveAddr: byte, tid: word, stream: seq<byte>, old_: Leftovers,
                                       cb: Option<Callback<S>>, state: S)
    requires old_.Valid() && (cb.Some? ==> WellBehaved(cb.value))
    requires Accepted(core, slaveAddr, stream, old_).Some?
    ensures var f, buffer := stream[core.Header()], Accepted(core, slaveAddr, stream, old_).value;
            var reply := SlaveSide(core, slaveAddr, tid, stream, old_, cb, state).1;
            && |reply| > core.Header()
            && (reply[core.Header()] >= 0x80 <==> !Succeeds(core, buffer, old_.writeBuff, cb, state) && f < 0x80)
            && (f >= 0x80 ==> reply[core.Header()] == f - 0x80)
  {
    hide SlaveSide, Succeeds, Accepted;
    AnsweredOnce(core, slaveAddr, tid, stream, old_, cb, state);
    var buffer := Accepted(core, slaveAddr, stream, old_).value;
    if Succeeds(core, buffer, old_.writeBuff, cb, state) {
      SucceedsBelow80(core, buffer, old_.writeBuff, cb, state);
    }
  }

  lemma WholeFrame(core: Core, tid: word, slaveAddr: byte, pdu: seq<byte>, frame: seq<byte>)
    requires 1 <= |pdu| <= 253 && frame == Adu(core, tid, slaveAddr, pdu)
    ensures RequestVerdict(core, slaveAddr, frame) == |frame| && frame[..|frame|] == frame
    ensures forall i :: 0 <= i < |pdu| ==> frame[core.Header() + i] == pdu[i]
  {
    AduIsIntact(core, tid, slaveAddr, pdu);
    AduCarries(core, tid, slaveAddr, pdu);
    forall i | 0 <= i < |pdu| ensures frame[core.Header() + i] == pdu[i] {
      CarriesAt(core, frame, pdu, i);
    }
  }

  /** Every function code from 0x80 on can be received like this, alone in its frame, and is so answered. */
  lemma HighFunctionAnswered<S(!new)>(core: Core, slaveAddr: byte, tid: word, slaveTid: word, f: byte, old_: Leftovers,
                                      cb: Option<Callback<S>>, state: S)
    requires old_.Valid() && (cb.Some? ==> WellBehaved(cb.value)) && f >= 0x80
    ensures var frame := Adu(core, tid, slaveAddr, [f]);
            var reply := SlaveSide(core, slaveAddr, slaveTid, frame, old_, cb, state).1;
            && ScanRequest(core, frame) == Whole(|frame|) && RequestVerdict(core, slaveAddr, frame) == |frame|
            && |reply| > core.Header() && reply[core.Header()] == f - 0x80
  {
    hide SlaveSide, Intact, Succeeds;
    var frame := Adu(core, tid, slaveAddr, [f]);
    WholeFrame(core, tid, slaveAddr, [f], frame);
    assert frame[core.Header()] == [f][0];
    ExceptionRecognisable(core, slaveAddr, slaveTid, frame, old_, cb, state);
  }

  // ---------- The code in an exception reply ----------

  /** The codes of section 7 of the MODBUS Application Protocol V1.1b3. */
  predicate IsStandardCode(code: byte) {
    code in {0x01, 0x02, 0x03, 0x04, 0x05, 0x06, 0x08, 0x0A, 0x0B}
  }

  /** The callback was asked about this buffer, and returned a negative number with this low octet. */
  predicate AnswersWith<S(!new)>(core: Core, request: seq<byte>, response: seq<byte>, cb: Option<Callback<S>>, state: S,
                                 code: byte)
    requires |request| == |response| == MAX_ADU && (cb.Some? ==> WellBehaved(cb.value))
  {
    var q := QueryOf(core, request);
    AskIsLegal(core, request, response);
    q.Ask? && var rc := Consult(cb, state, q, AreaOf(core, q, request, response)).rc; rc < 0 && Lo(rc) == code
  }

  lemma ServedCode<S(!new)>(core: Core, slaveAddr: byte, request: seq<byte>, response: seq<byte>,
                            cb: Option<Callback<S>>, state: S)
    requires |request| == |response| == MAX_ADU && (cb.Some? ==> WellBehaved(cb.value))
    requires !Succeeds(core, request, response, cb, state)
    ensures var pdu := Serve(core, slaveAddr, request, response, cb, state).pdu;
            && |pdu| == 2
            && (pdu[1] in {0x7D, 0x7F, 0x80} || AnswersWith(core, request, response, cb, state, pdu[1]))
            && (IsStandardCode(pdu[1]) ==> AnswersWith(core, request, response, cb, state, pdu[1]))
            && (forall code :: AnswersWith(core, request, response, cb, state, code) ==> pdu[1] == code)
  {
    AskIsLegal(core, request, response);
  }

  /**
   * The octet of an exception reply is a code of the standard exactly when the callback was asked and
   * chose it: its negative result goes out cut to eight bits. The library's own refusals never give one.
   */
  lemma StandardCodeExactly<S(!new)>(core: Core, slaveAddr: byte, tid: word, stream: seq<byte>, old_: Leftovers,
                                     cb: Option<Callback<S>>, state: S)
    requires old_.Valid() && (cb.Some? ==> WellBehaved(cb.value))
    requires Accepted(core, slaveAddr, stream, old_).Some?
    requires !Succeeds(core, Accepted(core, slaveAddr, stream, old_).value, old_.writeBuff, cb, state)
    ensures var buffer := Accepted(core, slaveAddr, stream, old_).value;
            var reply := SlaveSide(core, slaveAddr, tid, stream, old_, cb, state).1;
            && |reply| == core.Header() + 2 + core.Checksum()
            && (IsStandardCode(reply[core.Header() + 1]) <==>
                exists code :: IsStandardCode(code) && AnswersWith(core, buffer, old_.writeBuff, cb, state, code))
            && (forall code :: AnswersWith(core, buffer, old_.writeBuff, cb, state, code) ==>
                  reply[core.Header() + 1] == code)
  {
    hide Succeeds, Serve, AnswersWith;
    var n := ScanRequest(core, stream).length;
    var buffer := Accepted(core, slaveAddr, stream, old_).value;
    var pdu := Serve(core, slaveAddr, buffer, old_.writeBuff, cb, state).pdu;
    var replyTid := RememberedId(core, slaveAddr, tid, stream[..n]);
    ServedCode(core, slaveAddr, buffer, old_.writeBuff, cb, state);
    AduCarries(core, replyTid, slaveAddr, pdu);
    CarriesAt(core, Adu(core, replyTid, slaveAddr, pdu), pdu, 1);
  }

  /** A callback that refuses everything with one code. */
  function Refuser(code: byte): Callback<()> {
    (s: (), f: byte, a: word, n: word, area: seq<byte>) => Answer(s, code - 0x100, area)
  }

  lemma RefuserIsWellBehaved(code: byte)
    ensures WellBehaved(Refuser(code))
  {
    var cb := Refuser(code);
    forall s: (), f, a, n, area | LegalCall(f, a, n, area)
      ensures cb.requires(s, f, a, n, area) && AnswerFits(f, cb(s, f, a, n, area).rc)
      ensures |cb(s, f, a, n, area).area| == |area|
    {
    }
  }

  lemma RefuserRefuses(code: byte, q: Query, area: seq<byte>)
    requires q.Ask? && LegalCall(q.function_, q.addr, q.num, area) && WellBehaved(Refuser(code))
    ensures Consult(Some(Refuser(code)), (), q, area) == Answer((), code - 0x100, area)
  {
  }

  lemma RefusedPdu(f: byte, code: byte, room: seq<byte>, echo: seq<byte>)
    requires f < 0x80 && (IsRead(f) ==> |room| >= MAX_PAYLOAD) && |echo| == 4
    ensures ReplyPdu(f, code - 0x100, room, echo) == [f + 0x80, code]
  {
  }

  /** Any code can be sent that way: a callback that returns -254 puts 0x02 on the line. */
  lemma CallbackChoosesCode(core: Core, slaveAddr: byte, tid: word, slaveTid: word, r: Request, code: byte,
                            old_: Leftovers)
    requires old_.Valid() && r.Legal()
    ensures WellBehaved(Refuser(code))
    ensures var frame := Adu(core, tid, slaveAddr, RequestPdu(r));
            && |frame| > core.Header() + core.Checksum()
            && SlaveSide(core, slaveAddr, slaveTid, frame, old_, Some(Refuser(code)), ()).1 ==
               Adu(core, RememberedId(core, slaveAddr, slaveTid, frame), slaveAddr, [r.function_ + 0x80, code])
  {
    hide Refuser, WellBehaved, SlaveSide, RequestPdu, ReplyPdu, Consult, ScanRequest, Adu, LegalCall, RememberedId;
    RefuserIsWellBehaved(code);
    var frame := Adu(core, tid, slaveAddr, RequestPdu(r));
    var echo, room := SlaveSideOf(core, tid, slaveTid, slaveAddr, r, frame, old_, Some(Refuser(code)), ());
    RemoteAreaLegal(core, r, old_);
    RefuserRefuses(code, Asked(r), RemoteArea(core, r, old_));
    RefusedPdu(r.function_, code, room, echo);
  }

  lemma ReadOfNothing<S(!new)>(core: Core, slaveAddr: byte, request: seq<byte>, response: seq<byte>,
                               cb: Option<Callback<S>>, state: S)
    requires |request| == |response| == MAX_ADU && (cb.Some? ==> WellBehaved(cb.value))
    requires request[core.Header()] == READ_HOLDING && Quantity(core.Header(), request) == 0
    ensures Serve(core, slaveAddr, request, response, cb, state) == Served(state, [0x83, 0x7D])
  {
  }

  lemma FrameInBuffer(frame: seq<byte>, old_: Leftovers)
    requires old_.Valid() && |frame| <= MAX_ADU
    ensures forall i :: 0 <= i < |frame| ==> InBuffer(frame, old_.readBuff)[i] == frame[i]
  {
  }

  lemma WholeServed<S(!new)>(core: Core, slaveAddr: byte, slaveTid: word, frame: seq<byte>, old_: Leftovers,
                             cb: Option<Callback<S>>, state: S)
    requires old_.Valid() && (cb.Some? ==> WellBehaved(cb.value))
    requires core.Header() + core.Checksum() < |frame| <= MAX_ADU
    requires ScanRequest(core, frame) == Whole(|frame|) && RequestVerdict(core, slaveAddr, frame) == |frame|
    ensures var served := Serve(core, slaveAddr, InBuffer(frame, old_.readBuff), old_.writeBuff, cb, state);
            SlaveSide(core, slaveAddr, slaveTid, frame, old_, cb, state) ==
            (served.state, Adu(core, RememberedId(core, slaveAddr, slaveTid, frame), slaveAddr, served.pdu))
    ensures forall i :: 0 <= i < |frame| ==> InBuffer(frame, old_.readBuff)[i] == frame[i]
  {
    hide Serve, Adu, InBuffer, RememberedId, ScanRequest, RequestVerdict;
    assert frame[..|frame|] == frame;
    FrameInBuffer(frame, old_);
  }

  lemma ScanUncounted(core: Core, s: seq<byte>)
    requires |s| > core.Header() && !IsWriteMultiple(s[core.Header()]) && s[core.Header()] != WRITE_AND_READ_REGISTERS
    requires |s| == core.Header() + 1 + RequestFixed(s[core.Header()]) + core.Checksum()
    ensures ScanRequest(core, s) == Whole(|s|)
  {
  }

  lemma BareRead(core: Core, slaveAddr: byte, tid: word, frame: seq<byte>)
    requires frame == Adu(core, tid, slaveAddr, [READ_HOLDING, 0, 0, 0, 0])
    ensures var h := core.Header();
            && |frame| == h + 5 + core.Checksum() && frame[h] == READ_HOLDING && Quantity(h, frame) == 0
            && ScanRequest(core, frame) == Whole(|frame|) && RequestVerdict(core, slaveAddr, frame) == |frame|
  {
    hide Adu, ScanRequest, RequestVerdict;
    var h, pdu := core.Header(), [READ_HOLDING, 0, 0, 0, 0];
    WholeFrame(core, tid, slaveAddr, pdu, frame);
    assert frame[h + 0] == pdu[0] && frame[h + 3] == pdu[3] && frame[h + 4] == pdu[4];
    ScanUncounted(core, frame);
  }

  /** A read of no registers is accepted and refused by the library itself, whatever the callback: code 0x7D. */
  lemma LibraryRefusal<S(!new)>(core: Core, slaveAddr: byte, tid: word, slaveTid: word, frame: seq<byte>,
                                old_: Leftovers, cb: Option<Callback<S>>, state: S)
    requires old_.Valid() && (cb.Some? ==> WellBehaved(cb.value))
    requires frame == Adu(core, tid, slaveAddr, [READ_HOLDING, 0, 0, 0, 0])
    ensures ScanRequest(core, frame) == Whole(|frame|) && RequestVerdict(core, slaveAddr, frame) == |frame|
    ensures SlaveSide(core, slaveAddr, slaveTid, frame, old_, cb, state) ==
            (state, Adu(core, RememberedId(core, slaveAddr, slaveTid, frame), slaveAddr, [0x83, 0x7D]))
    ensures !IsStandardCode(0x7D)
  {
    hide Adu, ScanRequest, RequestVerdict, RememberedId, SlaveSide, Serve, InBuffer;
    var h, buffer := core.Header(), InBuffer(frame, old_.readBuff);
    BareRead(core, slaveAddr, tid, frame);
    WholeServed(core, slaveAddr, slaveTid, frame, old_, cb, state);
    assert buffer[h] == frame[h] && buffer[h + 3] == frame[h + 3] && buffer[h + 4] == frame[h + 4];
    ReadOfNothing(core, slaveAddr, buffer, old_.writeBuff, cb, state);
  }

  // ---------- Functions the master does not issue ----------

  /** A request of any function code in its standard layout, to this slave or to all, and what it leads to. */
  lemma AnyRequestServed<T(!new)>(core: Core, tid: word, unit: byte, slaveAddr: byte, slaveTid: word, pdu: seq<byte>,
                                  old_: Leftovers, cb: Option<Callback<T>>, state: T)
    requires old_.Valid() && (cb.Some? ==> WellBehaved(cb.value)) && (unit == slaveAddr || unit == 0)
    requires pdu != [] && S.RequestNeeds(pdu[0]) <= |pdu| == S.RequestLength(pdu)
    requires C.HeaderOf(core) + |pdu| + C.ChecksumOf(core) <= 260
    ensures var frame := Adu(core, tid, unit, pdu);
            var served := Serve(core, slaveAddr, InBuffer(frame, old_.readBuff), old_.writeBuff, cb, state);
            && ScanRequest(core, frame) == Whole(|frame|) && RequestVerdict(core, slaveAddr, frame) == |frame|
            && SlaveSide(core, slaveAddr, slaveTid, frame, old_, cb, state) ==
               (served.state, Adu(core, if core.TCP? then tid else slaveTid, slaveAddr, served.pdu))
            && InBuffer(frame, old_.readBuff)[C.HeaderOf(core)] == pdu[0]
  {
    hide Adu, ScanRequest, RequestVerdict, SlaveSide, Serve, InBuffer;
    var frame := Adu(core, tid, unit, pdu);
    C.AnyRequestFramed(core, tid, unit, slaveAddr, pdu);
    C.PduOfUnit(core, tid, unit, pdu);
    assert frame[C.HeaderOf(core) + 0] == pdu[0];
    AduIsIntact(core, tid, unit, pdu);
    WholeServed(core, slaveAddr, slaveTid, frame, old_, cb, state);
  }

  /** The request for the slave's identity, one octet of PDU, is served with the identity and changes nothing. */
  lemma IdentityServed<T(!new)>(core: Core, tid: word, unit: byte, slaveAddr: byte, slaveTid: word,
                                old_: Leftovers, cb: Option<Callback<T>>, state: T)
    requires old_.Valid() && (cb.Some? ==> WellBehaved(cb.value)) && (unit == slaveAddr || unit == 0)
    ensures var frame := Adu(core, tid, unit, [0x11]);
            && |frame| == (if core.RTU? then 4 else 8)
            && ScanRequest(core, frame) == Whole(|frame|) && RequestVerdict(core, slaveAddr, frame) == |frame|
            && SlaveSide(core, slaveAddr, slaveTid, frame, old_, cb, state) ==
               (state, Adu(core, if core.TCP? then tid else slaveTid, slaveAddr,
                           [0x11, 9, slaveAddr, 0xFF, 0x53, 0x4D, 0x4F, 0x44, 0x42, 0x55, 0x53]))
  {
    hide Adu, ScanRequest, RequestVerdict, SlaveSide, Serve, InBuffer;
    var frame := Adu(core, tid, unit, [0x11]);
    AnyRequestServed(core, tid, unit, slaveAddr, slaveTid, [0x11], old_, cb, state);
    C.RefusedExactly(core, slaveAddr, InBuffer(frame, old_.readBuff), old_.writeBuff, cb, state);
  }

  /**
   * Every other code outside the eight, as 0x07, 0x16 and 0x17, is framed in its own layout and refused:
   * with the code and its top bit flipped, and 0x7F.
   */
  lemma UnsupportedRefused<T(!new)>(core: Core, tid: word, unit: byte, slaveAddr: byte, slaveTid: word, pdu: seq<byte>,
                                    old_: Leftovers, cb: Option<Callback<T>>, state: T)
    requires old_.Valid() && (cb.Some? ==> WellBehaved(cb.value)) && (unit == slaveAddr || unit == 0)
    requires pdu != [] && pdu[0] !in {1, 2, 3, 4, 5, 6, 15, 16, 0x11}
    requires pdu[0] == 0x17 ==> |pdu| >= 10 && |pdu| - 10 == pdu[9]
    requires pdu[0] != 0x17 ==> |pdu| == if pdu[0] == 0 then 5 else if pdu[0] == 0x16 then 7 else 1
    requires C.HeaderOf(core) + |pdu| + C.ChecksumOf(core) <= 260
    ensures var frame := Adu(core, tid, unit, pdu);
            && ScanRequest(core, frame) == Whole(|frame|) && RequestVerdict(core, slaveAddr, frame) == |frame|
            && SlaveSide(core, slaveAddr, slaveTid, frame, old_, cb, state) ==
               (state, Adu(core, if core.TCP? then tid else slaveTid, slaveAddr,
                           [if pdu[0] < 128 then pdu[0] + 128 else pdu[0] - 128, 0x7F]))
  {
    hide Adu, ScanRequest, RequestVerdict, SlaveSide, Serve, InBuffer;
    var frame := Adu(core, tid, unit, pdu);
    AnyRequestServed(core, tid, unit, slaveAddr, slaveTid, pdu, old_, cb, state);
    C.RefusedExactly(core, slaveAddr, InBuffer(frame, old_.readBuff), old_.writeBuff, cb, state);
  }

  // ---------- What is not served ----------

  lemma NotServed<T(!new)>(core: Core, slaveAddr: byte, slaveTid: word, stream: seq<byte>, old_: Leftovers,
                           cb: Option<Callback<T>>, state: T)
    requires old_.Valid() && (cb.Some? ==> WellBehaved(cb.value)) && ScanRequest(core, stream).Whole?
    requires RequestVerdict(core, slaveAddr, stream[..ScanRequest(core, stream).length]) < 0
    ensures SlaveSide(core, slaveAddr, slaveTid, stream, old_, cb, state) == (state, [])
  {
  }

  /** A TCP frame with another protocol identifier, or a length that is not its own, leads to nothing. */
  lemma MbapDamagedNotServed<T(!new)>(slaveAddr: byte, slaveTid: word, stream: seq<byte>, n: nat, old_: Leftovers,
                                      cb: Option<Callback<T>>, state: T)
    requires old_.Valid() && (cb.Some? ==> WellBehaved(cb.value))
    requires ScanRequest(TCP, stream) == Whole(n) && 7 < n <= |stream|
    requires stream[2] != 0 || stream[3] != 0 || S.Number(stream[4], stream[5]) != n - 6
    ensures RequestVerdict(TCP, slaveAddr, stream[..n]) == -7
    ensures SlaveSide(TCP, slaveAddr, slaveTid, stream, old_, cb, state) == (state, [])
  {
    C.TcpVerdict(slaveAddr, 0, stream[..n]);
    NotServed(TCP, slaveAddr, slaveTid, stream, old_, cb, state);
  }

  /** Nor does any frame for another unit, or an RTU frame whose CRC leaves a residue. */
  lemma OthersNotServed<T(!new)>(core: Core, slaveAddr: byte, slaveTid: word, stream: seq<byte>, n: nat,
                                 old_: Leftovers, cb: Option<Callback<T>>, state: T)
    requires old_.Valid() && (cb.Some? ==> WellBehaved(cb.value))
    requires ScanRequest(core, stream) == Whole(n) && C.HeaderOf(core) + C.ChecksumOf(core) < n <= |stream|
    requires (C.UnitOf(core, stream) != slaveAddr && C.UnitOf(core, stream) != 0)
             || (core.RTU? && Crc.Checksum(stream[..n]) != 0)
    ensures SlaveSide(core, slaveAddr, slaveTid, stream, old_, cb, state) == (state, [])
  {
    if core.RTU? {
      C.RtuVerdict(slaveAddr, 0, stream[..n]);
    } else {
      C.OtherUnitRefused(core, slaveAddr, 0, stream[..n]);
    }
    NotServed(core, slaveAddr, slaveTid, stream, old_, cb, state);
  }

  /** The callback is asked exactly about accepted requests with an allowed quantity, of the eight functions. */
  lemma AskedExactly(core: Core, slaveAddr: byte, stream: seq<byte>, old_: Leftovers)
    requires old_.Valid() && Accepted(core, slaveAddr, stream, old_).Some?
    ensures var h := C.HeaderOf(core);
            && |stream| > h && (S.Supported(stream[h]) ==> |stream| >= h + 5)
            && (Question(core, slaveAddr, stream, old_).Some? <==>
                S.Supported(stream[h]) &&
                (stream[h] in {5, 6} || S.QuantityAllowed(stream[h], S.Number(stream[h + 3], stream[h + 4]))))
  {
    hide RequestVerdict, InBuffer, QueryOf;
    var h, n := C.HeaderOf(core), ScanRequest(core, stream).length;
    var frame := stream[..n];
    var buffer := InBuffer(frame, old_.readBuff);
    C.RequestFramingExactly(core, stream);
    C.DecisionExactly(core, buffer);
    FrameInBuffer(frame, old_);
    if S.Supported(stream[h]) {
      assert buffer[h + 3] == frame[h + 3] && buffer[h + 4] == frame[h + 4];
    }
  }

  // ---------- How the library's own master frames a reply ----------

  /** The function codes whose refusal comes back with the code of a longer reply. */
  predicate RefusedAsAnother(f: byte) {
    f in {0x81, 0x82, 0x83, 0x84, 0x85, 0x86, 0x8F, 0x90, 0x96}
  }

  lemma RefusalAnnounced(f: byte)
    ensures Announced(ExceptionPdu(f, MODBUS_EXCEPTION_ILLEGAL_FUNCTION)) <==> !RefusedAsAnother(f)
    ensures f < 0x80 ==> forall code :: Announced(ExceptionPdu(f, code))
  {
  }

  /**
   * A reply has the length its first octets announce to modbus_wait_confirm, except in two cases: the
   * identity, and the refusal of a code that 0x80 turns into one with a longer reply.
   */
  lemma AnnouncedExactly<S(!new)>(core: Core, slaveAddr: byte, request: seq<byte>, response: seq<byte>,
                                  cb: Option<Callback<S>>, state: S)
    requires |request| == |response| == MAX_ADU && (cb.Some? ==> WellBehaved(cb.value))
    ensures var f := request[core.Header()];
            Announced(Serve(core, slaveAddr, request, response, cb, state).pdu) <==>
            f != REPORT_SLAVE_ID && !RefusedAsAnother(f)
  {
    hide Announced, AreaOf, Consult, ReplyPdu, ExceptionPdu;
    var h, q := core.Header(), QueryOf(core, request);
    AskIsLegal(core, request, response);
    RefusalAnnounced(request[h]);
    match q
    case Refuse(_) =>
    case Identify => IdentityNotAnnounced(slaveAddr);
    case Ask(f, _, _) =>
      var a := Consult(cb, state, q, AreaOf(core, q, request, response));
      ReplyAnnounced(f, a.rc, RoomOf(core, f, a.area, response), request[h + 1..h + 5]);
  }

  lemma IdentityNotAnnounced(slaveAddr: byte)
    ensures !Announced(IdentityPdu(slaveAddr))
  {
  }

  /** So the library's own master takes the identity for a frame that ends after two octets of it. */
  lemma IdentityCut(core: Core, tid: word, slaveAddr: byte)
    ensures var reply := Adu(core, tid, slaveAddr, IdentityPdu(slaveAddr));
            ScanReply(core, reply) == Whole(core.Header() + 2 + core.Checksum())
            && |reply| == core.Header() + 11 + core.Checksum()
  {
    hide Adu, Intact;
    var reply := Adu(core, tid, slaveAddr, IdentityPdu(slaveAddr));
    WholeFrame(core, tid, slaveAddr, IdentityPdu(slaveAddr), reply);
    assert reply[core.Header() + 0] == IdentityPdu(slaveAddr)[0];
  }

  // ---------- Damaged frames ----------

  /** Bits that differ only inside sixteen consecutive places, or in an odd number of places. */
  predicate Damaged(f: seq<byte>, g: seq<byte>, at: nat)
    requires |f| == |g|
  {
    && f != g
    && ((forall k :: 0 <= k < 8 * |f| && !(at <= k < at + 16) ==> Crc.Bits(f)[k] == Crc.Bits(g)[k])
        || Gf2.Odd(Gf2.Xor(Crc.Bits(f), Crc.Bits(g))))
  }

  /**
   * End to end: when a frame that passes is damaged by a burst of sixteen bits or an odd number of flipped
   * bits and is still framed with its length, the slave neither answers it nor changes its state.
   */
  lemma DamagedNotServed<S(!new)>(slaveAddr: byte, tid: word, frame: seq<byte>, stream: seq<byte>, at: nat,
                                  old_: Leftovers, cb: Option<Callback<S>>, state: S)
    requires old_.Valid() && (cb.Some? ==> WellBehaved(cb.value))
    requires 2 <= |frame| <= |stream| && Integrity.CrcMatches(frame) && Damaged(frame, stream[..|frame|], at)
    requires ScanRequest(RTU, stream) == Whole(|frame|)
    ensures RequestVerdict(RTU, slaveAddr, stream[..|frame|]) == MODBUS_FAIL_CHECK
    ensures SlaveSide(RTU, slaveAddr, tid, stream, old_, cb, state) == (state, [])
  {
    var g := stream[..|frame|];
    if Gf2.Odd(Gf2.Xor(Crc.Bits(frame), Crc.Bits(g))) {
      Integrity.OddErrorDetected(frame, g);
    } else {
      Integrity.BurstDetected(frame, g, at);
    }
  }

  // ---------- Where the data of a write comes from ----------

  /** Two fillings of the slave's buffer, different everywhere. */
  function Filled(b: byte): Leftovers {
    Leftovers(seq(MAX_ADU, _ => b), seq(MAX_ADU, _ => b))
  }

  predicate IsMultipleWrite(core: Core, frame: seq<byte>) {
    |frame| > core.Header() + 5 && IsWriteMultiple(frame[core.Header()])
  }

  /** The area of a multiple write is taken from the request buffer, the frame first, then leftovers. */
  function WriteArea(core: Core, frame: seq<byte>, old_: Leftovers): seq<byte>
    requires old_.Valid() && IsMultipleWrite(core, frame) && |frame| <= MAX_ADU
    requires QueryOf(core, InBuffer(frame, old_.readBuff)).Ask?
  {
    var request := InBuffer(frame, old_.readBuff);
    AskIsLegal(core, request, old_.writeBuff);
    AreaOf(core, QueryOf(core, request), request, old_.writeBuff)
  }

  lemma HeadFromFrame(core: Core, frame: seq<byte>, old_: Leftovers)
    requires old_.Valid() && IsMultipleWrite(core, frame) && |frame| <= MAX_ADU
    ensures var h, request := core.Header(), InBuffer(frame, old_.readBuff);
            && request[h] == frame[h]
            && QueryOf(core, request) ==
               (var num := Word(frame[h + 3], frame[h + 4]);
                if CheckAddrNum(frame[h], 0, num) then Ask(frame[h], Word(frame[h + 1], frame[h + 2]), num)
                else Refuse(MODBUS_EXCEPTION_ILLEGAL_DATA_VALUE))
  {
  }

  /** Where octet k of decoded data stands on the wire. */
  function OnWire(f: byte, k: nat): nat {
    if IsBitFunction(f) then k else if k % 2 == 0 then k + 1 else k - 1
  }

  /** The octet of the request buffer behind octet k of the area. */
  function Source(core: Core, f: byte, k: nat): nat {
    core.Header() + 6 + OnWire(f, k)
  }

  lemma PayloadOctet(f: byte, n: word, s: seq<byte>, k: nat)
    requires |s| == AreaSize(f, n) && k < |s|
    ensures k < |Payload(f, n, s)| && OnWire(f, k) < |s| && Payload(f, n, s)[k] == s[OnWire(f, k)]
  {
    assert s[..AreaSize(f, n)] == s;
    if !IsBitFunction(f) {
      assert 2 * n == |s|;
    }
  }

  lemma AreaOctet(core: Core, frame: seq<byte>, old_: Leftovers, k: nat)
    requires old_.Valid() && IsMultipleWrite(core, frame) && |frame| <= MAX_ADU
    requires QueryOf(core, InBuffer(frame, old_.readBuff)).Ask?
    requires k < |WriteArea(core, frame, old_)|
    ensures Source(core, frame[core.Header()], k) < MAX_ADU
    ensures WriteArea(core, frame, old_)[k] == InBuffer(frame, old_.readBuff)[Source(core, frame[core.Header()], k)]
  {
    hide Payload, OnWire, WriteArea, DataIn;
    HeadFromFrame(core, frame, old_);
    AreaIsDataIn(core, frame, old_);
    DataOctet(core, frame, InBuffer(frame, old_.readBuff), k);
  }

  lemma BeyondFrame(frame: seq<byte>, i: nat)
    requires |frame| <= i < MAX_ADU
    ensures InBuffer(frame, Filled(0).readBuff)[i] == 0 && InBuffer(frame, Filled(1).readBuff)[i] == 1
  {
  }

  /** A valid multiple write, as far as the slave looks: it does not compare count octet and quantity. */
  predicate Plausible(core: Core, frame: seq<byte>) {
    && IsMultipleWrite(core, frame) && |frame| <= MAX_ADU
    && CheckAddrNum(frame[core.Header()], 0, Quantity(core.Header(), frame))
  }

  lemma PlausibleAsks(core: Core, frame: seq<byte>, old_: Leftovers)
    requires old_.Valid() && Plausible(core, frame)
    ensures QueryOf(core, InBuffer(frame, old_.readBuff)).Ask?
    ensures |WriteArea(core, frame, old_)| == AreaSize(frame[core.Header()], Quantity(core.Header(), frame))
  {
    HeadFromFrame(core, frame, old_);
    AskIsLegal(core, InBuffer(frame, old_.readBuff), old_.writeBuff);
  }

  ghost predicate FromFrameAlone(core: Core, frame: seq<byte>)
    requires Plausible(core, frame)
  {
    forall old1: Leftovers, old2: Leftovers | old1.Valid() && old2.Valid() ::
      (PlausibleAsks(core, frame, old1); PlausibleAsks(core, frame, old2);
       WriteArea(core, frame, old1) == WriteArea(core, frame, old2))
  }

  lemma AreaAgrees(core: Core, frame: seq<byte>, old1: Leftovers, old2: Leftovers, size: nat)
    requires Plausible(core, frame) && old1.Valid() && old2.Valid()
    requires size == AreaSize(frame[core.Header()], Quantity(core.Header(), frame))
    requires core.Header() + 6 + size <= |frame|
    ensures QueryOf(core, InBuffer(frame, old1.readBuff)).Ask? && QueryOf(core, InBuffer(frame, old2.readBuff)).Ask?
    ensures WriteArea(core, frame, old1) == WriteArea(core, frame, old2)
  {
    PlausibleAsks(core, frame, old1);
    PlausibleAsks(core, frame, old2);
    AreaIsDataIn(core, frame, old1);
    AreaIsDataIn(core, frame, old2);
    hide InBuffer, WriteArea, Payload;
    SliceInBuffer(frame, old1, core.Header() + 6, size);
    SliceInBuffer(frame, old2, core.Header() + 6, size);
  }

  lemma SliceInBuffer(frame: seq<byte>, old_: Leftovers, at: nat, size: nat)
    requires old_.Valid() && at + size <= |frame| <= MAX_ADU
    ensures InBuffer(frame, old_.readBuff)[at..at + size] == frame[at..at + size]
  {
  }

  /** An octet of the area whose source lies behind the frame. */
  lemma Uncovered(core: Core, frame: seq<byte>, size: nat) returns (k: nat)
    requires Plausible(core, frame) && size == AreaSize(frame[core.Header()], Quantity(core.Header(), frame))
    requires core.Header() + 6 + size > |frame|
    ensures k < size && Source(core, frame[core.Header()], k) >= |frame|
  {
    k := if IsBitFunction(frame[core.Header()]) then size - 1 else size - 2;
  }

  /** The octets the count octet of a whole multiple write counts. */
  function Counted(core: Core, frame: seq<byte>): (data: seq<byte>)
    requires IsMultipleWrite(core, frame) && ScanRequest(core, frame) == Whole(|frame|)
    ensures |data| == frame[core.Header() + 5] && |frame| == core.Header() + 6 + |data| + core.Checksum()
  {
    frame[core.Header() + 6..core.Header() + 6 + frame[core.Header() + 5]]
  }

  /** What the slave takes from its buffer for the data of the frame. */
  function DataIn(core: Core, frame: seq<byte>, buffer: seq<byte>): (data: seq<byte>)
    requires Plausible(core, frame) && |buffer| == MAX_ADU
    ensures |data| == AreaSize(frame[core.Header()], Quantity(core.Header(), frame))
  {
    var h := core.Header();
    var f, n := frame[h], Quantity(h, frame);
    SizeFits(f, n);
    Payload(f, n, buffer[h + 6..h + 6 + AreaSize(f, n)])
  }

  lemma SizeFits(f: byte, n: word)
    requires IsWriteMultiple(f) && CheckAddrNum(f, 0, n)
    ensures 0 < AreaSize(f, n) <= 246
  {
  }

  lemma AreaIsDataIn(core: Core, frame: seq<byte>, old_: Leftovers)
    requires old_.Valid() && Plausible(core, frame) && QueryOf(core, InBuffer(frame, old_.readBuff)).Ask?
    ensures WriteArea(core, frame, old_) == DataIn(core, frame, InBuffer(frame, old_.readBuff))
  {
    var h := core.Header();
    var f, n, request := frame[h], Quantity(h, frame), InBuffer(frame, old_.readBuff);
    HeadFromFrame(core, frame, old_);
    SizeFits(f, n);
    var slice := request[h + 6..h + 6 + AreaSize(f, n)];
    assert slice[..AreaSize(f, n)] == slice;
  }

  /** Nothing but the counted octets has a say in the data: buffers that agree on these give the same. */
  ghost predicate FromCountedAlone(core: Core, frame: seq<byte>)
    requires Plausible(core, frame) && ScanRequest(core, frame) == Whole(|frame|)
  {
    var end := core.Header() + 6 + |Counted(core, frame)|;
    forall b1: seq<byte>, b2: seq<byte> | |b1| == |b2| == MAX_ADU && frame[..end] <= b1 && frame[..end] <= b2 ::
      DataIn(core, frame, b1) == DataIn(core, frame, b2)
  }

  lemma DataFromCounted(core: Core, frame: seq<byte>, buffer: seq<byte>)
    requires Plausible(core, frame) && ScanRequest(core, frame) == Whole(|frame|) && |buffer| == MAX_ADU
    requires frame[..core.Header() + 6 + |Counted(core, frame)|] <= buffer
    requires AreaSize(frame[core.Header()], Quantity(core.Header(), frame)) <= |Counted(core, frame)|
    ensures DataIn(core, frame, buffer) ==
            Payload(frame[core.Header()], Quantity(core.Header(), frame), Counted(core, frame))
  {
    var h := core.Header();
    var size := AreaSize(frame[h], Quantity(h, frame));
    assert buffer[h + 6..h + 6 + size] == Counted(core, frame)[..size];
    assert buffer[h + 6..h + 6 + size][..size] == buffer[h + 6..h + 6 + size];
  }

  /** The frame up to `end`, and one octet repeated after that. */
  function Continued(frame: seq<byte>, end: nat, b: byte): (buffer: seq<byte>)
    requires end <= |frame| <= MAX_ADU
    ensures |buffer| == MAX_ADU && frame[..end] <= buffer
    ensures forall i :: end <= i < MAX_ADU ==> buffer[i] == b
  {
    frame[..end] + seq(MAX_ADU - end, _ => b)
  }

  lemma DataOctet(core: Core, frame: seq<byte>, buffer: seq<byte>, k: nat)
    requires Plausible(core, frame) && |buffer| == MAX_ADU
    requires k < AreaSize(frame[core.Header()], Quantity(core.Header(), frame))
    ensures k < |DataIn(core, frame, buffer)| && Source(core, frame[core.Header()], k) < MAX_ADU
    ensures DataIn(core, frame, buffer)[k] == buffer[Source(core, frame[core.Header()], k)]
  {
    hide Payload, OnWire;
    var h := core.Header();
    var f, n := frame[h], Quantity(h, frame);
    SizeFits(f, n);
    PayloadOctet(f, n, buffer[h + 6..h + 6 + AreaSize(f, n)], k);
  }

  lemma Uncounted(core: Core, frame: seq<byte>, size: nat, end: nat)
    requires Plausible(core, frame) && size == AreaSize(frame[core.Header()], Quantity(core.Header(), frame))
    requires end <= |frame| && core.Header() + 6 + size > end
    ensures DataIn(core, frame, Continued(frame, end, 0)) != DataIn(core, frame, Continued(frame, end, 1))
  {
    SizeFits(frame[core.Header()], Quantity(core.Header(), frame));
    var k := if IsBitFunction(frame[core.Header()]) then size - 1 else size - 2;
    DataOctet(core, frame, Continued(frame, end, 0), k);
    DataOctet(core, frame, Continued(frame, end, 1), k);
  }

  /**
   * The data a multiple write hands to the callback are the counted octets exactly when the count octet
   * is large enough for the quantity. The slave does not require it.
   */
  lemma WriteDataCounted(core: Core, frame: seq<byte>)
    requires Plausible(core, frame) && ScanRequest(core, frame) == Whole(|frame|)
    ensures FromCountedAlone(core, frame) <==>
            AreaSize(frame[core.Header()], Quantity(core.Header(), frame)) <= frame[core.Header() + 5]
  {
    var size, end := AreaSize(frame[core.Header()], Quantity(core.Header(), frame)),
                     core.Header() + 6 + |Counted(core, frame)|;
    if size <= |Counted(core, frame)| {
      forall b1: seq<byte>, b2: seq<byte> | |b1| == |b2| == MAX_ADU && frame[..end] <= b1 && frame[..end] <= b2
        ensures DataIn(core, frame, b1) == DataIn(core, frame, b2)
      {
        DataFromCounted(core, frame, b1);
        DataFromCounted(core, frame, b2);
      }
    } else {
      Uncounted(core, frame, size, end);
    }
  }

  /** Then they are the decoding of the counted octets, whatever the buffer held. */
  lemma WriteDataAre(core: Core, frame: seq<byte>, old_: Leftovers)
    requires old_.Valid() && Plausible(core, frame) && ScanRequest(core, frame) == Whole(|frame|)
    requires AreaSize(frame[core.Header()], Quantity(core.Header(), frame)) <= frame[core.Header() + 5]
    ensures QueryOf(core, InBuffer(frame, old_.readBuff)).Ask?
    ensures WriteArea(core, frame, old_) ==
            Payload(frame[core.Header()], Quantity(core.Header(), frame), Counted(core, frame))
  {
    PlausibleAsks(core, frame, old_);
    AreaIsDataIn(core, frame, old_);
    DataFromCounted(core, frame, InBuffer(frame, old_.readBuff));
  }

  lemma FromFrameReach(core: Core, frame: seq<byte>)
    requires Plausible(core, frame)
    ensures FromFrameAlone(core, frame) <==>
            core.Header() + 6 + AreaSize(frame[core.Header()], Quantity(core.Header(), frame)) <= |frame|
  {
    var f, size := frame[core.Header()], AreaSize(frame[core.Header()], Quantity(core.Header(), frame));
    if core.Header() + 6 + size <= |frame| {
      forall old1: Leftovers, old2: Leftovers | old1.Valid() && old2.Valid()
        ensures (PlausibleAsks(core, frame, old1); PlausibleAsks(core, frame, old2);
                 WriteArea(core, frame, old1) == WriteArea(core, frame, old2))
      {
        AreaAgrees(core, frame, old1, old2, size);
      }
    } else {
      var k := Uncovered(core, frame, size);
      PlausibleAsks(core, frame, Filled(0));
      PlausibleAsks(core, frame, Filled(1));
      AreaOctet(core, frame, Filled(0), k);
      AreaOctet(core, frame, Filled(1), k);
      BeyondFrame(frame, Source(core, f, k));
      assert WriteArea(core, frame, Filled(0))[k] != WriteArea(core, frame, Filled(1))[k];
    }
  }

  /**
   * When they are not, there are two cases. If the count falls short by no more than the checksum has
   * octets, CRC octets of the frame itself are taken for data; if it falls short by more, so is what an
   * earlier frame left in the buffer.
   */
  lemma WriteDataFromFrame(core: Core, frame: seq<byte>)
    requires Plausible(core, frame) && ScanRequest(core, frame) == Whole(|frame|)
    ensures var size, count := AreaSize(frame[core.Header()], Quantity(core.Header(), frame)), frame[core.Header() + 5];
            && (FromFrameAlone(core, frame) <==> size <= count + core.Checksum())
            && (FromFrameAlone(core, frame) && !FromCountedAlone(core, frame) <==>
                count < size <= count + core.Checksum())
  {
    FromFrameReach(core, frame);
    WriteDataCounted(core, frame);
    assert |frame| == core.Header() + 6 + |Counted(core, frame)| + core.Checksum();
  }

  /** A write of n registers without any data is framed and accepted. */
  lemma BareWrite(core: Core, slaveAddr: byte, tid: word, n: byte, frame: seq<byte>)
    requires 1 <= n <= MAX_WRITE_REGISTERS && frame == Adu(core, tid, slaveAddr, [WRITE_REGISTERS, 0, 0, 0, n, 0])
    ensures var h := core.Header();
            && |frame| == h + 6 + core.Checksum() && frame[h] == WRITE_REGISTERS && Quantity(h, frame) == n
            && ScanRequest(core, frame) == Whole(|frame|) && RequestVerdict(core, slaveAddr, frame) == |frame|
            && frame[h + 5] == 0
  {
    hide Intact;
    var h, pdu := core.Header(), [WRITE_REGISTERS, 0, 0, 0, n, 0];
    WholeFrame(core, tid, slaveAddr, pdu, frame);
    assert frame[h + 0] == pdu[0] && frame[h + 3] == pdu[3] && frame[h + 4] == pdu[4] && frame[h + 5] == pdu[5];
  }

  /** A write of one register with no data is accepted over RTU, and the frame's own CRC is written. */
  lemma CrcWritten(slaveAddr: byte, frame: seq<byte>, old_: Leftovers)
    requires old_.Valid() && frame == Adu(RTU, 0, slaveAddr, [WRITE_REGISTERS, 0, 0, 0, 1, 0])
    ensures |frame| == 9 && ScanRequest(RTU, frame) == Whole(9) && RequestVerdict(RTU, slaveAddr, frame) == 9
    ensures Plausible(RTU, frame) && QueryOf(RTU, InBuffer(frame, old_.readBuff)).Ask?
    ensures WriteArea(RTU, frame, old_) == [frame[8], frame[7]]
  {
    hide Adu, ScanRequest, RequestVerdict, WriteArea, QueryOf;
    BareWrite(RTU, slaveAddr, 0, 1, frame);
    PlausibleAsks(RTU, frame, old_);
    AreaOctet(RTU, frame, old_, 0);
    AreaOctet(RTU, frame, old_, 1);
  }

  lemma LastTwo(core: Core, frame: seq<byte>, old_: Leftovers, area: seq<byte>)
    requires old_.Valid() && |area| == 4 && |frame| == core.Header() + 6 + core.Checksum()
    requires area[2] == InBuffer(frame, old_.readBuff)[core.Header() + 9]
    requires area[3] == InBuffer(frame, old_.readBuff)[core.Header() + 8]
    ensures area[2..] == [old_.readBuff[core.Header() + 9], old_.readBuff[core.Header() + 8]]
  {
  }

  /** A write of two registers with no data is accepted over either core, and writes what was in the buffer. */
  lemma LeftoverWritten(core: Core, slaveAddr: byte, tid: word, frame: seq<byte>, old_: Leftovers)
    requires old_.Valid() && frame == Adu(core, tid, slaveAddr, [WRITE_REGISTERS, 0, 0, 0, 2, 0])
    ensures ScanRequest(core, frame) == Whole(|frame|) && RequestVerdict(core, slaveAddr, frame) == |frame|
    ensures Plausible(core, frame) && QueryOf(core, InBuffer(frame, old_.readBuff)).Ask?
    ensures |WriteArea(core, frame, old_)| == 4
    ensures WriteArea(core, frame, old_)[2..] ==
            [old_.readBuff[core.Header() + 9], old_.readBuff[core.Header() + 8]]
  {
    hide Adu, ScanRequest, RequestVerdict, WriteArea, QueryOf, InBuffer;
    BareWrite(core, slaveAddr, tid, 2, frame);
    PlausibleAsks(core, frame, old_);
    AreaOctet(core, frame, old_, 2);
    AreaOctet(core, frame, old_, 3);
    LastTwo(core, frame, old_, WriteArea(core, frame, old_));
  }
}
