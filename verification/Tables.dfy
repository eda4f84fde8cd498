// The headline: a slave whose callback serves a table of coils and registers behaves, to its master,
// like that table held locally.

module Tables {
  import opened Bytes
  import opened Codec
  import opened Cores
  import opened Framing
  import opened Protocol
  import opened Exchange
  import opened Remote
  import opened Standard
  import opened Conformance

  type NotPositive = x: int | x <= 0

  /** Application data, and what the callback returns for addresses outside it. */
  datatype Table = Table(coils: seq<bool>, inputs: seq<bool>, holding: seq<word>, inputRegs: seq<word>,
                         fault: NotPositive)

  // ---------- Elements in a data area ----------

  lemma CoilFits(i: word, n: word)
    requires i < n <= 2000
    ensures CoilOctet(i) < BitBytes(n)
  {
  }

  function GetBits(area: seq<byte>, n: word): (bits: seq<bool>)
    requires n <= 2000 && BitBytes(n) <= |area|
    ensures |bits| == n
  {
    seq(n, i requires 0 <= i < n => (CoilFits(i, n); CoilAt(area, i)))
  }

  /** dio_set_val for the first n of the given bits. */
  function PutBits(area: seq<byte>, bits: seq<bool>, n: nat): (area': seq<byte>)
    requires n <= |bits| <= 2000 && BitBytes(|bits|) <= |area|
    ensures |area'| == |area|
    decreases n
  {
    if n == 0 then area
    else
      CoilFits(n - 1, |bits|);
      WithCoil(PutBits(area, bits, n - 1), n - 1, bits[n - 1])
  }

  lemma {:induction false} PutBitsAt(area: seq<byte>, bits: seq<bool>, n: nat, j: word)
    requires n <= |bits| <= 2000 && BitBytes(|bits|) <= |area| && j < n
    ensures CoilOctet(j) < |area| && CoilAt(PutBits(area, bits, n), j) == bits[j]
    decreases n
  {
    CoilFits(j, |bits|);
    CoilFits(n - 1, |bits|);
    WithCoilInRange(PutBits(area, bits, n - 1), n - 1, bits[n - 1], j);
    if j < n - 1 {
      PutBitsAt(area, bits, n - 1, j);
    }
  }

  lemma BitsAre(area: seq<byte>, bits: seq<bool>)
    requires |bits| <= 2000 && BitBytes(|bits|) <= |area|
    requires forall j: word :: j < |bits| ==> CoilOctet(j) < |area| && CoilAt(area, j) == bits[j]
    ensures GetBits(area, |bits|) == bits
  {
  }

  lemma PutThenGetBits(area: seq<byte>, bits: seq<bool>)
    requires |bits| <= 2000 && BitBytes(|bits|) <= |area|
    ensures GetBits(PutBits(area, bits, |bits|), |bits|) == bits
  {
    forall j: word | j < |bits|
      ensures CoilOctet(j) < |area| && CoilAt(PutBits(area, bits, |bits|), j) == bits[j]
    {
      PutBitsAt(area, bits, |bits|, j);
    }
    BitsAre(PutBits(area, bits, |bits|), bits);
  }

  function GetRegisters(area: seq<byte>, n: word): (values: seq<word>)
    requires 2 * n <= |area|
    ensures |values| == n
  {
    seq(n, i requires 0 <= i < n => RegisterAt(area, i))
  }

  /** The area filled with the given registers, as aio_set_val leaves them. */
  function PutRegisters(values: seq<word>): (area: seq<byte>)
    ensures |area| == 2 * |values|
  {
    seq(2 * |values|, i requires 0 <= i < 2 * |values| => if i % 2 == 0 then Lo(values[i / 2]) else Hi(values[i / 2]))
  }

  lemma PutRegistersAt(values: seq<word>, i: nat)
    requires i < |values|
    ensures RegisterAt(PutRegisters(values), i) == values[i]
  {
    var area := PutRegisters(values);
    assert 2 * i / 2 == i && (2 * i + 1) / 2 == i;
    assert area[2 * i] == Lo(values[i]) && area[2 * i + 1] == Hi(values[i]);
    SplitJoin(values[i]);
  }

  lemma PutThenGetRegisters(values: seq<word>)
    requires |values| < 0x1_0000
    ensures GetRegisters(PutRegisters(values), |values|) == values
  {
    var area := PutRegisters(values);
    forall i | 0 <= i < |values| ensures RegisterAt(area, i) == values[i] {
      PutRegistersAt(values, i);
    }
  }

  // ---------- The callback ----------

  /** A callback that reads and writes the table. */
  function TableCallback(t: Table, f: byte, addr: word, n: word, area: seq<byte>): (a: Answer<Table>)
    requires LegalCall(f, addr, n, area)
  {
    if f == 1 && addr + n <= |t.coils| then
      Answer(t, n, PutBits(area, t.coils[addr..addr + n], n))
    else if f == 2 && addr + n <= |t.inputs| then
      Answer(t, n, PutBits(area, t.inputs[addr..addr + n], n))
    else if f == 3 && addr + n <= |t.holding| then
      Answer(t, n, PutRegisters(t.holding[addr..addr + n]))
    else if f == 4 && addr + n <= |t.inputRegs| then
      Answer(t, n, PutRegisters(t.inputRegs[addr..addr + n]))
    else if f in {5, 15} && addr + n <= |t.coils| then
      Answer(t.(coils := Overwrite(t.coils, addr, GetBits(area, n))), n, area)
    else if f in {6, 16} && addr + n <= |t.holding| then
      Answer(t.(holding := Overwrite(t.holding, addr, GetRegisters(area, n))), n, area)
    else Answer(t, t.fault, area)
  }

  lemma TableIsWellBehaved()
    ensures WellBehaved<Table>(TableCallback)
  {
    var cb: Callback<Table> := TableCallback;
    forall t: Table, f, a, n, area | LegalCall(f, a, n, area)
      ensures cb.requires(t, f, a, n, area)
      ensures AnswerFits(f, cb(t, f, a, n, area).rc) && |cb(t, f, a, n, area).area| == |area|
    {
    }
  }

  // ---------- The table held locally ----------

  /** What a direct operation gives back. */
  datatype Direct =
    | Bits(bits: seq<bool>)
    | Registers(values: seq<word>)
    | Written
    | Refused        // outside the table
    | Rejected       // not a request the master would send

  datatype Locally = Locally(table: Table, result: Direct)

  /**
   * The operation a request stands for, carried out on the table itself: by function code and quantity as
   * the standard numbers them, without regard to what the code accepts.
   */
  function Local(t: Table, r: Request): Locally {
    var f, a, n := r.function_, r.addr % 0x1_0000, r.num;
    if !QuantityAllowed(f, n) || |r.data| < WriteSize(f, n) then Locally(t, Rejected)
    else if f == 1 then
      if a + n <= |t.coils| then Locally(t, Bits(t.coils[a..a + n])) else Locally(t, Refused)
    else if f == 2 then
      if a + n <= |t.inputs| then Locally(t, Bits(t.inputs[a..a + n])) else Locally(t, Refused)
    else if f == 3 then
      if a + n <= |t.holding| then Locally(t, Registers(t.holding[a..a + n])) else Locally(t, Refused)
    else if f == 4 then
      if a + n <= |t.inputRegs| then Locally(t, Registers(t.inputRegs[a..a + n])) else Locally(t, Refused)
    else if f == 5 then
      if a < |t.coils| then Locally(t.(coils := t.coils[a := r.data[0] != 0]), Written) else Locally(t, Refused)
    else if f == 6 then
      if a < |t.holding| then Locally(t.(holding := t.holding[a := RegisterAt(r.data, 0)]), Written)
      else Locally(t, Refused)
    else if f == 15 then
      if a + n <= |t.coils| then Locally(t.(coils := Overwrite(t.coils, a, GetBits(r.data, n))), Written)
      else Locally(t, Refused)
    else
      if a + n <= |t.holding| then Locally(t.(holding := Overwrite(t.holding, a, GetRegisters(r.data, n))), Written)
      else Locally(t, Refused)
  }

  /** The master sends exactly the requests that are carried out. */
  lemma RejectedExactly(t: Table, r: Request)
    ensures r.Legal() <==> !Local(t, r).result.Rejected?
    ensures !r.Legal() ==> Local(t, r) == Locally(t, Rejected)
  {
    LegalExactly(r);
  }

  /** The master's return value and read_data say what the direct operation says. */
  predicate Agrees(r: Request, c: Confirmed, d: Direct) {
    match d
    case Bits(bits) =>
      && c.ret == 0 && c.read.Some? && |bits| == r.num <= 2000
      && BitBytes(r.num) == |c.read.value| && GetBits(c.read.value, r.num) == bits
    case Registers(values) =>
      && c.ret == 0 && c.read.Some? && |values| == r.num
      && 2 * r.num == |c.read.value| && GetRegisters(c.read.value, r.num) == values
    case Written => c == Confirmed(0, None)
    case Refused => c == Confirmed(-(r.function_ as int + 0x80), None)
    case Rejected => c == Confirmed(-3, None)
  }

  lemma OneCoil(v: byte)
    requires v == 0xFF || v == 0x00
    ensures CoilAt([v], 0) == (v != 0) && GetBits([v], 1) == [v != 0]
  {
  }

  lemma HostBits(data: seq<byte>, n: word)
    requires 0 < n <= 2000 && BitBytes(n) <= |data|
    ensures GetBits(data[..BitBytes(n)], n) == GetBits(data, n)
  {
    forall i: word | i < n ensures CoilOctet(i) < BitBytes(n) && CoilAt(data[..BitBytes(n)], i) == CoilAt(data, i) {
      CoilFits(i, n);
    }
  }

  lemma HostRegisters(data: seq<byte>, n: word)
    requires 2 * n <= |data|
    ensures GetRegisters(data[..2 * n], n) == GetRegisters(data, n)
  {
    forall i | 0 <= i < n ensures RegisterAt(data[..2 * n], i) == RegisterAt(data, i) {
    }
  }

  lemma ReplaceOne<T>(s: seq<T>, at: nat, x: T)
    requires at < |s|
    ensures Overwrite(s, at, [x]) == s[at := x]
  {
  }

  /** What it means for a write that the callback does to the table what the direct operation does. */
  predicate WrittenAlike(t: Table, r: Request)
    requires r.Legal() && IsWrite(r.function_)
    requires LegalCall(r.function_, r.addr % 0x1_0000, AskedFor(r), HostData(r))
  {
    var a := TableCallback(t, r.function_, r.addr % 0x1_0000, AskedFor(r), HostData(r));
    && a.state == Local(t, r).table
    && Agrees(r, Outcome(r.function_, AskedFor(r), a.rc, a.area), Local(t, r).result)
  }

  lemma CoilsWrittenAlike(t: Table, r: Request)
    requires r.Legal() && (r.function_ == WRITE_COIL || r.function_ == WRITE_COILS)
    requires LegalCall(r.function_, r.addr % 0x1_0000, AskedFor(r), HostData(r))
    ensures WrittenAlike(t, r)
  {
    hide GetBits;
    var a := r.addr % 0x1_0000;
    if r.function_ == WRITE_COIL {
      OneCoil(HostData(r)[0]);
      if a < |t.coils| {
        ReplaceOne(t.coils, a, r.data[0] != 0);
      }
    } else {
      HostBits(r.data, r.num);
    }
  }

  lemma RegistersWrittenAlike(t: Table, r: Request)
    requires r.Legal() && (r.function_ == WRITE_REGISTER || r.function_ == WRITE_REGISTERS)
    requires LegalCall(r.function_, r.addr % 0x1_0000, AskedFor(r), HostData(r))
    ensures WrittenAlike(t, r)
  {
    var a := r.addr % 0x1_0000;
    if r.function_ == WRITE_REGISTER {
      assert GetRegisters(HostData(r), 1) == [RegisterAt(r.data, 0)];
      if a < |t.holding| {
        ReplaceOne(t.holding, a, RegisterAt(r.data, 0));
      }
    } else {
      HostRegisters(r.data, r.num);
    }
  }

  /** The callback, given the request's data, does to the table what the direct operation does. */
  lemma WriteIsLocal(t: Table, r: Request)
    requires r.Legal() && IsWrite(r.function_)
    requires LegalCall(r.function_, r.addr % 0x1_0000, AskedFor(r), HostData(r))
    ensures WrittenAlike(t, r)
  {
    hide WrittenAlike, LegalCall;
    if IsBitFunction(r.function_) {
      CoilsWrittenAlike(t, r);
    } else {
      RegistersWrittenAlike(t, r);
    }
  }

  lemma BitsAgree(r: Request, bits: seq<bool>, area: seq<byte>)
    requires r.Legal() && IsRead(r.function_) && IsBitFunction(r.function_)
    requires |bits| == r.num && |area| == AreaSize(r.function_, r.num)
    ensures Agrees(r, Outcome(r.function_, r.num, r.num, PutBits(area, bits, r.num)), Bits(bits))
  {
    hide PutBits, GetBits, BitBytes, SwapPairs;
    PutThenGetBits(area, bits);
    ReadTaken(r);
  }

  lemma ReadTaken(r: Request)
    requires r.Legal() && IsRead(r.function_)
    ensures Taken(r.function_, r.num) && 0 < r.num <= 2000
  {
  }

  lemma RegistersAgree(r: Request, values: seq<word>)
    requires r.Legal() && IsRead(r.function_) && !IsBitFunction(r.function_) && |values| == r.num
    ensures Agrees(r, Outcome(r.function_, r.num, r.num, PutRegisters(values)), Registers(values))
  {
    PutThenGetRegisters(values);
  }

  lemma RefusalAgrees(r: Request, rc: NotPositive, area: seq<byte>)
    ensures Agrees(r, Outcome(r.function_, r.num, rc, area), Refused)
  {
  }

  lemma ReadBitsIsLocal(t: Table, r: Request, area: seq<byte>)
    requires r.Legal() && (r.function_ == READ_COILS || r.function_ == READ_INPUTS)
    requires LegalCall(r.function_, r.addr % 0x1_0000, r.num, area)
    ensures var a := TableCallback(t, r.function_, r.addr % 0x1_0000, r.num, area);
            && a.state == Local(t, r).table == t
            && Agrees(r, Outcome(r.function_, r.num, a.rc, a.area), Local(t, r).result)
  {
    hide Outcome, Agrees, PutBits;
    RefusalAgrees(r, t.fault, area);
    var f, a, n := r.function_, r.addr % 0x1_0000, r.num;
    if f == READ_COILS {
      if a + n <= |t.coils| { BitsAgree(r, t.coils[a..a + n], area); }
    } else {
      if a + n <= |t.inputs| { BitsAgree(r, t.inputs[a..a + n], area); }
    }
  }

  lemma ReadRegistersIsLocal(t: Table, r: Request, area: seq<byte>)
    requires r.Legal() && (r.function_ == READ_HOLDING || r.function_ == READ_INPUT_REGISTERS)
    requires LegalCall(r.function_, r.addr % 0x1_0000, r.num, area)
    ensures var a := TableCallback(t, r.function_, r.addr % 0x1_0000, r.num, area);
            && a.state == Local(t, r).table == t
            && Agrees(r, Outcome(r.function_, r.num, a.rc, a.area), Local(t, r).result)
  {
    hide Outcome, Agrees, PutRegisters;
    RefusalAgrees(r, t.fault, area);
    var f, a, n := r.function_, r.addr % 0x1_0000, r.num;
    if f == READ_HOLDING {
      if a + n <= |t.holding| { RegistersAgree(r, t.holding[a..a + n]); }
    } else {
      if a + n <= |t.inputRegs| { RegistersAgree(r, t.inputRegs[a..a + n]); }
    }
  }

  // ---------- Runs ----------

  /** One step of a run: what the master is asked to do, and what the slave's buffers happened to hold. */
  datatype Step = Step(request: Request, leftovers: Leftovers)

  predicate ValidSteps(steps: seq<Step>) {
    forall i :: 0 <= i < |steps| ==> steps[i].leftovers.Valid() && steps[i].request.Backed()
  }

  /** A call to a slave that serves a table. */
  function TableCall(core: Core, tid: word, slaveTid: word, slaveAddr: byte, r: Request, old_: Leftovers,
                     t: Table): Remotely<Table>
    requires r.Legal() && old_.Valid()
  {
    TableIsWellBehaved();
    RemoteCall(core, tid, slaveTid, slaveAddr, r, old_, Some(TableCallback), t)
  }

  function RemoteStep(core: Core, slaveAddr: byte, tid: word, slaveTid: word, t: Table, s: Step): Remotely<Table>
    requires s.leftovers.Valid()
  {
    if !s.request.Legal() then Remotely(t, Confirmed(MODBUS_FAIL_REQUEST, None))
    else TableCall(core, NextId(core, tid), slaveTid, slaveAddr, s.request, s.leftovers, t)
  }

  datatype Run<R> = Run(table: Table, results: seq<R>)

  /** A run over the link. The slave's own identifier between calls may be anything. */
  function RemoteRun(core: Core, slaveAddr: byte, tid: word, slaveTids: seq<word>, t: Table,
                     steps: seq<Step>): Run<Confirmed>
    requires ValidSteps(steps) && |slaveTids| == |steps|
    decreases |steps|
  {
    if steps == [] then Run(t, [])
    else
      var first := RemoteStep(core, slaveAddr, tid, slaveTids[0], t, steps[0]);
      var tid' := if steps[0].request.Legal() then NextId(core, tid) else tid;
      var rest := RemoteRun(core, slaveAddr, tid', slaveTids[1..], first.state, steps[1..]);
      Run(rest.table, [first.result] + rest.results)
  }

  /** The same requests carried out directly, one after another. */
  function LocalRun(t: Table, requests: seq<Request>): Run<Direct>
    decreases |requests|
  {
    if requests == [] then Run(t, [])
    else
      var first := Local(t, requests[0]);
      var rest := LocalRun(first.table, requests[1..]);
      Run(rest.table, [first.result] + rest.results)
  }

  function RequestsOf(steps: seq<Step>): (requests: seq<Request>)
    ensures |requests| == |steps|
  {
    seq(|steps|, i requires 0 <= i < |steps| => steps[i].request)
  }

  lemma TableCallIsLocal(core: Core, tid: word, slaveTid: word, slaveAddr: byte, r: Request, old_: Leftovers, t: Table)
    requires r.Legal() && old_.Valid()
    ensures var remote, local := TableCall(core, tid, slaveTid, slaveAddr, r, old_, t), Local(t, r);
            remote.state == local.table && Agrees(r, remote.result, local.result)
  {
    TableIsWellBehaved();
    RemoteCallIsCallback(core, tid, slaveTid, slaveAddr, r, old_, Some(TableCallback), t);
    if IsWrite(r.function_) {
      WriteIsLocal(t, r);
    } else if IsBitFunction(r.function_) {
      ReadBitsIsLocal(t, r, RemoteArea(core, r, old_));
    } else {
      ReadRegistersIsLocal(t, r, RemoteArea(core, r, old_));
    }
  }

  /** The slave's octets after a stream, and its table. */
  function TableSide(core: Core, slaveAddr: byte, slaveTid: word, stream: seq<byte>, old_: Leftovers,
                     t: Table): (Table, seq<byte>)
    requires old_.Valid()
  {
    TableIsWellBehaved();
    SlaveSide(core, slaveAddr, slaveTid, stream, old_, Some(TableCallback), t)
  }

  /** These octets are what the slave sends for this request. */
  predicate IsReplyTo(core: Core, tid: word, slaveTid: word, slaveAddr: byte, r: Request, old_: Leftovers, t: Table,
                      reply: seq<byte>) {
    && r.Legal() && old_.Valid()
    && reply == TableSide(core, slaveAddr, slaveTid, Adu(core, tid, slaveAddr, RequestPdu(r)), old_, t).1
  }

  /** They have the form of a reply with the request's own identifier. */
  lemma ReplyForm(core: Core, tid: word, slaveTid: word, slaveAddr: byte, r: Request, old_: Leftovers, t: Table,
                  reply: seq<byte>)
    returns (replyTid: word, pdu: seq<byte>)
    requires IsReplyTo(core, tid, slaveTid, slaveAddr, r, old_, t, reply)
    ensures (core.TCP? ==> replyTid == tid) && Announced(pdu) && |pdu| <= 252
    ensures reply == Adu(core, replyTid, slaveAddr, pdu)
  {
    var frame := Adu(core, tid, slaveAddr, RequestPdu(r));
    TableIsWellBehaved();
    var echo, room := SlaveSideOf(core, tid, slaveTid, slaveAddr, r, frame, old_, Some(TableCallback), t);
    var a := Consult(Some(TableCallback), t, Asked(r), RemoteArea(core, r, old_));
    SlaveAccepts(core, tid, slaveTid, slaveAddr, r);
    ReplyAnnounced(r.function_, a.rc, room, echo);
    replyTid, pdu := RememberedId(core, slaveAddr, slaveTid, frame), ReplyPdu(r.function_, a.rc, room, echo);
  }

  /** The slave's reply to a master's request is one frame, and passes the master's checks. */
  lemma TableReplyFramed(core: Core, tid: word, slaveTid: word, slaveAddr: byte, r: Request, old_: Leftovers,
                         t: Table, reply: seq<byte>)
    requires r.Legal() && old_.Valid()
    ensures IsReplyTo(core, tid, slaveTid, slaveAddr, r, old_, t, reply) ==>
              && ScanReply(core, reply) == Whole(|reply|) && ResponseVerdict(core, slaveAddr, tid, reply) > 0
              && (core.TCP? ==> Word(reply[0], reply[1]) == tid)
  {
    if IsReplyTo(core, tid, slaveTid, slaveAddr, r, old_, t, reply) {
      var replyTid, pdu := ReplyForm(core, tid, slaveTid, slaveAddr, r, old_, t, reply);
      MasterAccepts(core, tid, replyTid, slaveAddr, pdu);
      AduIsIntact(core, replyTid, slaveAddr, pdu);
    }
  }

  /** The master reads a reply to its request as the given result. */
  predicate Delivers(core: Core, tid: word, slaveAddr: byte, r: Request, frame: seq<byte>, reply: seq<byte>,
                     d: Direct) {
    Issued(core, frame) && Agrees(r, CallResult(core, slaveAddr, tid, frame, reply), d)
  }

  /** What the slave sends for a request, the master reads as the result of the direct operation. */
  lemma ResultIsLocal(core: Core, tid: word, slaveTid: word, slaveAddr: byte, r: Request, old_: Leftovers, t: Table,
                      reply: seq<byte>)
    requires r.Legal() && old_.Valid()
    ensures IsReplyTo(core, tid, slaveTid, slaveAddr, r, old_, t, reply) ==>
              Delivers(core, tid, slaveAddr, r, Adu(core, tid, slaveAddr, RequestPdu(r)), reply, Local(t, r).result)
  {
    var frame := Adu(core, tid, slaveAddr, RequestPdu(r));
    AduCarries(core, tid, slaveAddr, RequestPdu(r));
    RequestIssued(core, frame, r);
    TableCallIsLocal(core, tid, slaveTid, slaveAddr, r, old_, t);
  }

  lemma TableAfter(core: Core, tid: word, slaveTid: word, slaveAddr: byte, r: Request, old_: Leftovers, t: Table)
    requires r.Legal() && old_.Valid()
    ensures TableSide(core, slaveAddr, slaveTid, Adu(core, tid, slaveAddr, RequestPdu(r)), old_, t).0
            == Local(t, r).table
  {
    TableCallIsLocal(core, tid, slaveTid, slaveAddr, r, old_, t);
  }

  /** One step over the link is the direct operation. */
  lemma RemoteStepIsLocal(core: Core, slaveAddr: byte, tid: word, slaveTid: word, t: Table, s: Step)
    requires s.leftovers.Valid()
    ensures var remote, local := RemoteStep(core, slaveAddr, tid, slaveTid, t, s), Local(t, s.request);
            remote.state == local.table && Agrees(s.request, remote.result, local.result)
  {
    if s.request.Legal() {
      TableCallIsLocal(core, NextId(core, tid), slaveTid, slaveAddr, s.request, s.leftovers, t);
    }
  }

  /** Result by result, the master was told what the direct operations say. */
  predicate AllAgree(requests: seq<Request>, remote: seq<Confirmed>, local: seq<Direct>) {
    && |requests| == |remote| == |local|
    && forall i :: 0 <= i < |requests| ==> Agrees(requests[i], remote[i], local[i])
  }

  /** The run over the link tells the master what the direct run does, and leaves the same table. */
  predicate Refines(requests: seq<Request>, remote: Run<Confirmed>, local: Run<Direct>) {
    remote.table == local.table && AllAgree(requests, remote.results, local.results)
  }

  lemma RefinesFirst(requests: seq<Request>, c: Confirmed, remote: Run<Confirmed>, d: Direct, local: Run<Direct>)
    requires requests != [] && Agrees(requests[0], c, d) && Refines(requests[1..], remote, local)
    ensures Refines(requests, Run(remote.table, [c] + remote.results), Run(local.table, [d] + local.results))
  {
    var cs, ds := [c] + remote.results, [d] + local.results;
    forall i | 0 <= i < |requests| ensures Agrees(requests[i], cs[i], ds[i]) {
      if i > 0 {
        assert requests[i] == requests[1..][i - 1];
      }
    }
  }

  /**
   * Remote memory refines local memory: for every finite run of reads and writes, over either core and
   * whatever the buffers held, the table ends as direct operations leave it and every call returns what
   * the direct operation returns.
   */
  lemma {:induction false} RemoteRefinesLocal(core: Core, slaveAddr: byte, tid: word, slaveTids: seq<word>,
                                              t: Table, steps: seq<Step>)
    requires ValidSteps(steps) && |slaveTids| == |steps|
    ensures Refines(RequestsOf(steps), RemoteRun(core, slaveAddr, tid, slaveTids, t, steps),
                    LocalRun(t, RequestsOf(steps)))
    decreases |steps|
  {
    hide RemoteStep, Local, Agrees;
    if steps != [] {
      var requests, tail := RequestsOf(steps), steps[1..];
      var tid' := if steps[0].request.Legal() then NextId(core, tid) else tid;
      var t' := Local(t, steps[0].request).table;
      RemoteStepIsLocal(core, slaveAddr, tid, slaveTids[0], t, steps[0]);
      assert requests[1..] == RequestsOf(tail);
      RemoteRefinesLocal(core, slaveAddr, tid', slaveTids[1..], t', tail);
      RefinesFirst(requests, RemoteStep(core, slaveAddr, tid, slaveTids[0], t, steps[0]).result,
                   RemoteRun(core, slaveAddr, tid', slaveTids[1..], t', tail),
                   Local(t, steps[0].request).result, LocalRun(t', requests[1..]));
    }
  }
}
