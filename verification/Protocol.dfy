// What requests and replies say: the PDUs the master builds, how the slave reads them, what it
// answers, and what the master makes of the answer. Pure counterparts of modbus_start_request,
// modbus_slave_handle and modbus_handle_confirm.

module Protocol {
  import opened Bytes
  import opened Codec
  import opened Cores
  import opened Framing

  datatype Option<+T> = None | Some(value: T)

  // ---------- The master's request ----------

  /** Octets of host memory a write takes its data from. */
  function HostSize(f: byte, num: word): nat {
    if f == WRITE_COIL then 1
    else if f == WRITE_REGISTER then 2
    else if f == WRITE_COILS then BitBytes(num)
    else if f == WRITE_REGISTERS then 2 * num
    else 0
  }

  /** A request as the application gives it to the master. */
  datatype Request = Request(function_: byte, addr: int, num: word, data: seq<byte>) {
    /** If the request is going to be sent, the memory write_data points at is as large as it needs. */
    predicate Backed() {
      CheckAddrNum(function_, addr % 0x1_0000, num) ==> |data| >= HostSize(function_, num)
    }

    /** What modbus_start_request accepts. */
    predicate Legal() { CheckAddrNum(function_, addr % 0x1_0000, num) && Backed() }
  }

  function RequestPdu(r: Request): (pdu: seq<byte>)
    requires r.Legal()
    ensures 5 <= |pdu| <= 252 && pdu[0] == r.function_
  {
    var head := [r.function_, Hi(r.addr), Lo(r.addr)];
    var quantity := [Hi(r.num), Lo(r.num)];
    if r.function_ == WRITE_COIL then head + [if r.data[0] != 0 then 0xFF else 0x00, 0x00]
    else if r.function_ == WRITE_REGISTER then head + SwapPairs(r.data[..2])
    else if r.function_ == WRITE_COILS then
      head + quantity + [BitBytes(r.num)] + r.data[..BitBytes(r.num)]
    else if r.function_ == WRITE_REGISTERS then
      head + quantity + [2 * r.num] + SwapPairs(r.data[..2 * r.num])
    else head + quantity
  }

  // ---------- What the slave makes of it ----------

  /** A request as the slave understands it. */
  datatype Query =
    | Ask(function_: byte, addr: word, num: word)   // put this to the callback
    | Identify                                      // report slave id
    | Refuse(code: int)                             // reply with this exception

  /** The decision of modbus_slave_handle before the callback runs, from the request buffer. */
  function QueryOf(core: Core, request: seq<byte>): Query
    requires |request| >= core.Header() + 5
  {
    var h := core.Header();
    var f := request[h];
    var addr := Word(request[h + 1], request[h + 2]);
    var num := Word(request[h + 3], request[h + 4]);
    if f == WRITE_COIL || f == WRITE_REGISTER then Ask(f, addr, 1)
    else if IsRead(f) || IsWriteMultiple(f) then
      if CheckAddrNum(f, addr, num) then Ask(f, addr, num) else Refuse(MODBUS_EXCEPTION_ILLEGAL_DATA_VALUE)
    else if f == REPORT_SLAVE_ID then Identify
    else Refuse(MODBUS_EXCEPTION_ILLEGAL_FUNCTION)
  }

  /** Octets of the area the callback reads from or writes to. */
  function AreaSize(f: byte, num: word): nat {
    if IsBitFunction(f) then BitBytes(num) else 2 * num
  }

  /** Where that area begins: in the response buffer for reads, in the request buffer for writes. */
  function AreaStart(core: Core, f: byte): nat {
    if IsRead(f) then core.Header() + 2
    else if IsWriteMultiple(f) then core.Header() + 6
    else core.Header() + 3
  }

  /** The area as the callback finds it. Register data has been brought to host order. */
  function AreaOf(core: Core, q: Query, request: seq<byte>, response: seq<byte>): seq<byte>
    requires q.Ask? && |request| == |response| == MAX_ADU
    requires CheckAddrNum(q.function_, q.addr, q.num) && q.num <= 2000
    requires q.function_ == WRITE_COIL || q.function_ == WRITE_REGISTER ==> q.num == 1
  {
    var at, size := AreaStart(core, q.function_), AreaSize(q.function_, q.num);
    if IsRead(q.function_) then response[at..at + size]
    else if IsBitFunction(q.function_) then request[at..at + size]
    else SwapPairs(request[at..at + size])
  }

  // ---------- The slave's reply ----------

  /** The function octet of an exception reply, a uint8_t. */
  function Flagged(f: byte): byte {
    var sum: int := f;
    (sum + 0x80) % 0x100
  }

  function ExceptionPdu(f: byte, code: int): seq<byte> {
    [Flagged(f), Lo(code)]
  }

  /** The exception code sent: a negative callback result takes precedence. */
  function ExceptionCode(rc: int, code: int): int { if rc < 0 then rc else code }

  const SLAVE_ID: seq<byte> := [0x53, 0x4D, 0x4F, 0x44, 0x42, 0x55, 0x53]

  function IdentityPdu(slaveAddr: byte): seq<byte> {
    [REPORT_SLAVE_ID, 9, slaveAddr, 0xFF] + SLAVE_ID
  }

  /** The payload of a read reply that carries n elements of the area. */
  function Payload(f: byte, n: word, area: seq<byte>): seq<byte>
    requires AreaSize(f, n) <= |area|
  {
    if IsBitFunction(f) then area[..AreaSize(f, n)] else SwapPairs(area[..AreaSize(f, n)])
  }

  predicate IsSingleWrite(f: byte) { f == WRITE_COIL || f == WRITE_REGISTER }

  /** Whether the slave takes the callback's result for success; the quantity check sees sixteen bits of it. */
  predicate Taken(f: byte, rc: int) {
    0 < rc && if IsSingleWrite(f) then rc == 1 else CheckAddrNum(f, 0, rc % 0x1_0000)
  }

  /** A result the code can act on: above 65535, a read would be copied beyond the buffer. */
  predicate AnswerFits(f: byte, rc: int) {
    IsRead(f) && Taken(f, rc) ==> rc < 0x1_0000
  }

  /** The largest payload of a read reply. */
  const MAX_PAYLOAD: nat := 250

  /**
   * The reply after the callback returned rc: `room` is what it left in the response buffer from its area
   * on, `echo` the request's address and value.
   */
  function ReplyPdu(f: byte, rc: int, room: seq<byte>, echo: seq<byte>): (pdu: seq<byte>)
    requires AnswerFits(f, rc) && (IsRead(f) ==> |room| >= MAX_PAYLOAD) && |echo| == 4
    ensures 2 <= |pdu| <= 252
  {
    if !Taken(f, rc) then
      ExceptionPdu(f, ExceptionCode(rc, if IsSingleWrite(f) then MODBUS_EXCEPTION_ILLEGAL_DATA_VALUE
                                        else MODBUS_EXCEPTION))
    else if IsRead(f) then [f, AreaSize(f, rc)] + Payload(f, rc, room)
    else [f] + echo
  }

  // ---------- The callback ----------

  datatype Answer<+S> = Answer(state: S, rc: int, area: seq<byte>)

  /** small_modbus_slave_callback_t on an application state S, with the data area passed by value. */
  type Callback<!S> = (S, byte, word, word, seq<byte>) --> Answer<S>

  /** The calls the library may make. */
  predicate LegalCall(f: byte, addr: word, num: word, area: seq<byte>) {
    && CheckAddrNum(f, addr, num)
    && (f == WRITE_COIL || f == WRITE_REGISTER ==> num == 1)
    && |area| == AreaSize(f, num)
  }

  /** A callback that takes every legal call, stays in its area and gives a result the code can act on. */
  ghost predicate WellBehaved<S(!new)>(cb: Callback<S>) {
    forall s, f, a, n, area :: LegalCall(f, a, n, area) ==>
      && cb.requires(s, f, a, n, area)
      && AnswerFits(f, cb(s, f, a, n, area).rc)
      && |cb(s, f, a, n, area).area| == |area|
  }

  /** Calling it, or not calling it when there is none. */
  function Consult<S(!new)>(cb: Option<Callback<S>>, state: S, q: Query, area: seq<byte>): (a: Answer<S>)
    requires q.Ask? && LegalCall(q.function_, q.addr, q.num, area)
    requires cb.Some? ==> WellBehaved(cb.value)
    ensures AnswerFits(q.function_, a.rc) && |a.area| == |area|
  {
    match cb
    case None => Answer(state, 0, area)
    case Some(f) => f(state, q.function_, q.addr, q.num, area)
  }

  datatype Served<+S> = Served(state: S, pdu: seq<byte>)

  /** What an Ask query always satisfies. */
  lemma AskIsLegal(core: Core, request: seq<byte>, response: seq<byte>)
    requires |request| == |response| == MAX_ADU
    ensures var q := QueryOf(core, request);
            q.Ask? ==>
              && CheckAddrNum(q.function_, q.addr, q.num) && 1 <= q.num <= 2000
              && (q.function_ == WRITE_COIL || q.function_ == WRITE_REGISTER ==> q.num == 1)
              && AreaStart(core, q.function_) + AreaSize(q.function_, q.num) <= MAX_ADU
              && LegalCall(q.function_, q.addr, q.num, AreaOf(core, q, request, response))
  {
  }

  /** The response buffer from the area on, once the callback has left `area` there. */
  function RoomOf(core: Core, f: byte, area: seq<byte>, response: seq<byte>): (room: seq<byte>)
    requires |response| == MAX_ADU && AreaStart(core, f) + |area| <= MAX_ADU
    ensures area <= room && |room| == MAX_ADU - AreaStart(core, f)
  {
    area + response[AreaStart(core, f) + |area|..]
  }

  /** modbus_slave_handle: the new application state and the PDU of the reply. */
  function Serve<S(!new)>(core: Core, slaveAddr: byte, request: seq<byte>, response: seq<byte>,
                    cb: Option<Callback<S>>, state: S): (r: Served<S>)
    requires |request| == |response| == MAX_ADU
    requires cb.Some? ==> WellBehaved(cb.value)
    ensures 2 <= |r.pdu| <= 252
  {
    var h, q := core.Header(), QueryOf(core, request);
    AskIsLegal(core, request, response);
    match q
    case Refuse(code) => Served(state, ExceptionPdu(request[h], code))
    case Identify => Served(state, IdentityPdu(slaveAddr))
    case Ask(f, addr, num) =>
      var a := Consult(cb, state, q, AreaOf(core, q, request, response));
      Served(a.state, ReplyPdu(f, a.rc, RoomOf(core, f, a.area, response), request[h + 1..h + 5]))
  }

  // ---------- What the master makes of the reply ----------

  /** The return value, and the octets stored through read_data if any were. */
  datatype Confirmed = Confirmed(ret: int, read: Option<seq<byte>>)

  /** The quantity field of a request. */
  function Quantity(h: nat, request: seq<byte>): word
    requires |request| >= h + 5
  {
    Word(request[h + 3], request[h + 4])
  }

  /** Octets the decoder expects after header and before checksum. */
  function ExpectedBody(f: byte, n: word): nat {
    if f == READ_COILS || f == READ_INPUTS then 2 + BitBytes(n)
    else if f == READ_HOLDING || f == READ_INPUT_REGISTERS || f == WRITE_AND_READ_REGISTERS then 2 + 2 * n
    else if f == READ_EXCEPTION_STATUS then 3
    else if f == MASK_WRITE_REGISTER then 7
    else 5
  }

  /** calc_length, kept in a uint16_t */
  function ExpectedLength(core: Core, request: seq<byte>): nat
    requires |request| >= core.Header() + 5
  {
    var h := core.Header();
    (h + core.Checksum() + ExpectedBody(request[h], Quantity(h, request))) % 0x1_0000
  }

  /** A request whose quantity the library would have let through. */
  predicate Issued(core: Core, request: seq<byte>) {
    var h := core.Header();
    && |request| >= h + 5
    && CheckAddrNum(request[h], 0,
       if IsWrite(request[h]) && !IsWriteMultiple(request[h]) then 1 else Quantity(h, request))
  }

  function Negated(g: byte): int {
    var n: int := g;
    -n
  }

  /** The tests after which modbus_handle_confirm decodes: a read whose length and count octet are as expected. */
  predicate Decodes(core: Core, request: seq<byte>, reply: seq<byte>)
    requires |request| >= core.Header() + 5 && |reply| >= core.Header() + 2
  {
    var h := core.Header();
    && request[h] == reply[h] && IsRead(request[h])
    && ExpectedLength(core, request) == |reply|
    && AreaSize(request[h], Quantity(h, request)) % 0x100 == reply[h + 1]
  }

  /** At least one element was asked for, and the reply is long enough for all of them. */
  predicate Contained(core: Core, request: seq<byte>, reply: seq<byte>)
    requires |request| >= core.Header() + 5
  {
    var h := core.Header();
    0 < Quantity(h, request) && h + 2 + AreaSize(request[h], Quantity(h, request)) <= |reply|
  }

  /** modbus_handle_confirm */
  function Confirm(core: Core, request: seq<byte>, reply: seq<byte>): Confirmed
    requires |request| >= core.Header() + 5 && |reply| >= core.Header() + 2
  {
    var h := core.Header();
    var f, g := request[h], reply[h];
    if g >= 0x80 then Confirmed(Negated(g), None)
    else if f != g then Confirmed(MODBUS_FAIL_CONFIRM, None)
    else if Decodes(core, request, reply) && Contained(core, request, reply) then
      var n := Quantity(h, request);
      Confirmed(MODBUS_OK, Some(Payload(f, n, reply[h + 2..h + 2 + AreaSize(f, n)])))
    else Confirmed(MODBUS_OK, None)
  }

  // ---------- A whole call on the master ----------

  /** What a read or write wrapper returns once its request is out and the reply stream is complete. */
  function CallResult(core: Core, slaveAddr: byte, tid: word, request: seq<byte>, stream: seq<byte>): Confirmed
    requires Issued(core, request)
  {
    match ScanReply(core, stream)
    case More => Confirmed(MODBUS_TIMEOUT, None)
    case TooLong(_) => Confirmed(MODBUS_FAIL_CONFIRM, None)
    case Whole(n) =>
      var verdict := ResponseVerdict(core, slaveAddr, tid, stream[..n]);
      if verdict <= 0 then Confirmed(verdict, None) else Confirm(core, request, stream[..n])
  }

  /** The transaction identifier after one more request. */
  function NextId(core: Core, tid: word): word {
    if core.TCP? then (tid + 1) % 0x1_0000 else tid
  }
}
