// Master and slave joined by a link that cuts every frame into pieces as it likes: their methods carry
// out what Tables proves about their specifications.

module Session {
  import opened Bytes
  import opened Cores
  import opened Framing
  import opened Ports
  import opened Context
  import opened Protocol
  import opened Exchange
  import opened Master
  import opened Slave
  import opened Remote
  import opened Tables

  lemma {:induction false} ArrivalsAppend(plan: seq<Event>, bytes: seq<byte>)
    ensures Arrivals(plan + [Arrival(bytes)]) == Arrivals(plan) + bytes
    decreases |plan|
  {
    if plan == [] {
      assert Arrivals([Arrival(bytes)]) == bytes + Arrivals([]);
    } else {
      assert (plan + [Arrival(bytes)])[1..] == plan[1..] + [Arrival(bytes)];
      ArrivalsAppend(plan[1..], bytes);
    }
  }

  /** The link delivers all bytes in order, in pieces of any length. */
  method Deliver(port: Port, bytes: seq<byte>)
    modifies port`plan
    ensures port.Stream() == old(port.Stream()) + bytes
    ensures Reliable(old(port.plan)) ==> Reliable(port.plan)
  {
    var left := bytes;
    ghost var start := port.Stream();
    while left != []
      invariant port.rx == old(port.rx) && port.Stream() + left == start + bytes
      invariant Reliable(old(port.plan)) ==> Reliable(port.plan)
      decreases |left|
    {
      var k: nat :| 1 <= k <= |left|;
      ArrivalsAppend(port.plan, left[..k]);
      assert left == left[..k] + left[k..];
      port.plan := port.plan + [Arrival(left[..k])];
      left := left[k..];
    }
  }

  /** Nothing is under way to this port, and no wait on it is going to fail. */
  ghost predicate Quiet(port: Port)
    reads port
  {
    port.Stream() == [] && Reliable(port.plan)
  }

  /** Two contexts that share no memory, speak the same core, and address each other. */
  ghost predicate Linked(m: SmallModbus, s: SmallModbus)
    reads m, s
  {
    && m.Valid() && s.Valid() && m != s && m.port != s.port && m.core == s.core && m.slaveAddr == s.slaveAddr
    && m.readBuff != s.readBuff && m.readBuff != s.writeBuff && m.writeBuff != s.readBuff && m.writeBuff != s.writeBuff
  }

  /** And between whom nothing is under way. */
  ghost predicate Idle(m: SmallModbus, s: SmallModbus)
    reads m, s, m.port, s.port
  {
    Linked(m, s) && Quiet(m.port) && Quiet(s.port)
  }

  /** A frame for it has just come to an idle slave: it is served as SlaveSide says. */
  method ServeOne(s: SmallModbus, t: Table, frame: seq<byte>, ghost old_: Leftovers, ghost tid: word)
    returns (t': Table, reply: seq<byte>)
    requires s.Valid() && Quiet(s.port) && old_ == Leftovers(s.readBuff[..], s.writeBuff[..]) && tid == s.transferId
    requires ScanRequest(s.core, frame) == Whole(|frame|) && RequestVerdict(s.core, s.slaveAddr, frame) > 0
    modifies s.readBuff, s.writeBuff, s.port, s`transferId
    ensures Quiet(s.port) && (t', reply) == TableSide(s.core, s.slaveAddr, tid, frame, old_, t)
  {
    TableIsWellBehaved();
    Deliver(s.port, frame);
    assert s.port.Stream() == frame;
    assert frame[..|frame|] == frame;
    var ret;
    ghost var taken: nat;
    ghost var failed: bool;
    ghost var plan := s.port.plan;
    ret, t', taken, failed := SlaveWaitHandle(s, Some(TableCallback), t, 0);
    RestOfReliable(s.port.plan, plan);
    reply := s.port.sent[|s.port.sent| - 1];
  }

  lemma FrameReady(core: Core, tid: word, slaveTid: word, slaveAddr: byte, r: Request, frame: seq<byte>)
    requires r.Legal() && frame == Adu(core, tid, slaveAddr, RequestPdu(r))
    ensures |frame| > core.Header() + core.Checksum()
    ensures ScanRequest(core, frame) == Whole(|frame|) && RequestVerdict(core, slaveAddr, frame) > 0
    ensures Issued(core, frame) && frame[core.Header()] == r.function_
    ensures IsRead(r.function_) ==> Quantity(core.Header(), frame) == r.num
  {
    SlaveAccepts(core, tid, slaveTid, slaveAddr, r);
    AduCarries(core, tid, slaveAddr, RequestPdu(r));
    RequestIssued(core, frame, r);
  }

  /** The master's second half, when the slave's reply has just been delivered. */
  method Conclude(m: SmallModbus, length: nat, frame: seq<byte>, reply: seq<byte>, readData: array<byte>)
    returns (ret: int)
    requires m.Valid() && length <= MAX_ADU && m.writeBuff[..length] == frame && Issued(m.core, frame)
    requires Quiet(m.port) && ScanReply(m.core, reply) == Whole(|reply|)
    requires readData != m.writeBuff && readData != m.readBuff
    requires var h := m.core.Header(); IsRead(frame[h]) ==> readData.Length >= AreaSize(frame[h], Quantity(h, frame))
    modifies m.port, m.readBuff, readData
    ensures var c := CallResult(m.core, m.slaveAddr, m.transferId, frame, reply);
            && Quiet(m.port) && ret == c.ret && Stored(old(readData[..]), c.read, readData[..])
  {
    hide CallResult, Stored, AreaSize, Quantity, Arrivals;
    Deliver(m.port, reply);
    assert m.port.Stream() == reply;
    assert m.writeBuff[m.core.Header()] == frame[m.core.Header()];
    ghost var plan := m.port.plan;
    ghost var taken: nat;
    ghost var failed: bool;
    ret, taken, failed := AwaitAnswer(m, m.writeBuff, length, m.readBuff, readData);
    RestOfReliable(m.port.plan, plan);
  }

  /** The rest of a call whose request is in the master's buffer. */
  method Continue(m: SmallModbus, s: SmallModbus, r: Request, length: nat, readData: array<byte>, t: Table)
    returns (ret: int, t': Table, ghost c: Confirmed)
    requires Idle(m, s) && r.Legal() && length <= MAX_ADU
    requires m.writeBuff[..length] == Adu(m.core, m.transferId, m.slaveAddr, RequestPdu(r))
    requires readData != m.writeBuff && readData != m.readBuff && readData != s.readBuff && readData != s.writeBuff
    requires IsRead(r.function_) ==> readData.Length >= AreaSize(r.function_, r.num)
    modifies m.readBuff, m.port, s.readBuff, s.writeBuff, s.port, s`transferId, readData
    ensures Idle(m, s)
    ensures t' == Local(t, r).table
    ensures ret == c.ret && Stored(old(readData[..]), c.read, readData[..])
    ensures Agrees(r, c, Local(t, r).result)
  {
    hide Local, Agrees, CallResult, TableSide, RequestPdu, ScanRequest, ScanReply,
         RequestVerdict, ResponseVerdict, Stored;
    var frame := m.writeBuff[..length];
    ghost var tid, slaveTid, old_ := m.transferId, s.transferId, Leftovers(s.readBuff[..], s.writeBuff[..]);
    FrameReady(m.core, tid, slaveTid, m.slaveAddr, r, frame);
    var reply;
    t', reply := ServeOne(s, t, frame, old_, slaveTid);
    assert m.writeBuff[..length] == frame && Quiet(m.port);
    TableAfter(m.core, tid, slaveTid, m.slaveAddr, r, old_, t);
    TableReplyFramed(m.core, tid, slaveTid, m.slaveAddr, r, old_, t, reply);
    ResultIsLocal(m.core, tid, slaveTid, m.slaveAddr, r, old_, t, reply);
    c := CallResult(m.core, m.slaveAddr, tid, frame, reply);
    ret := Conclude(m, length, frame, reply, readData);
  }

  /**
   * One call, carried out by the methods of both sides, when nothing is under way between them: the
   * slave's table ends as the direct operation leaves it, the master returns, and stores through
   * read_data, what the direct operation gives, however the link cuts the two frames up, and again
   * nothing is under way.
   */
  method Perform(m: SmallModbus, s: SmallModbus, r: Request, writeData: array<byte>, readData: array<byte>, t: Table)
    returns (ret: int, t': Table, ghost c: Confirmed)
    requires Idle(m, s) && r.data == writeData[..] && r.Backed()
    requires writeData != m.writeBuff
    requires readData != m.writeBuff && readData != m.readBuff && readData != s.readBuff && readData != s.writeBuff
    requires IsRead(r.function_) && r.Legal() ==> readData.Length >= AreaSize(r.function_, r.num)
    modifies m.readBuff, m.writeBuff, m.port, m`transferId, s.readBuff, s.writeBuff, s.port, s`transferId, readData
    ensures Idle(m, s)
    ensures t' == Local(t, r).table
    ensures ret == c.ret && Stored(old(readData[..]), c.read, readData[..])
    ensures Agrees(r, c, Local(t, r).result)
  {
    t' := t;
    ret := StartRequest(m, m.writeBuff, r, r.num, writeData);
    c := Confirmed(ret, None);
    if ret < 0 {
      return;
    }
    ret, t', c := Continue(m, s, r, ret, readData, t);
  }

  /** The state of a run after some requests: what is left leads to where the whole run leads. */
  ghost predicate Underway(start: Table, requests: seq<Request>, i: nat, t: Table, results: seq<Confirmed>,
                           direct: seq<Direct>)
    requires i <= |requests|
  {
    && AllAgree(requests[..i], results, direct)
    && LocalRun(start, requests) ==
       Run(LocalRun(t, requests[i..]).table, direct + LocalRun(t, requests[i..]).results)
  }

  lemma NoneYet(start: Table, requests: seq<Request>)
    ensures Underway(start, requests, 0, start, [], [])
  {
    assert requests[0..] == requests;
  }

  lemma AllDone(start: Table, requests: seq<Request>, t: Table, results: seq<Confirmed>, direct: seq<Direct>)
    requires Underway(start, requests, |requests|, t, results, direct)
    ensures t == LocalRun(start, requests).table && AllAgree(requests, results, LocalRun(start, requests).results)
  {
    assert requests[..|requests|] == requests;
  }

  lemma OneMore(start: Table, requests: seq<Request>, i: nat, t: Table, results: seq<Confirmed>,
                direct: seq<Direct>, c: Confirmed)
    requires i < |requests| && Underway(start, requests, i, t, results, direct)
    requires Agrees(requests[i], c, Local(t, requests[i]).result)
    ensures Underway(start, requests, i + 1, Local(t, requests[i]).table,
                     results + [c], direct + [Local(t, requests[i]).result])
  {
    var first := Local(t, requests[i]);
    var rest := LocalRun(first.table, requests[i + 1..]);
    assert requests[i..][0] == requests[i] && requests[i..][1..] == requests[i + 1..];
    assert direct + ([first.result] + rest.results) == direct + [first.result] + rest.results;
    var done := requests[..i + 1];
    forall k | 0 <= k < i + 1 ensures Agrees(done[k], (results + [c])[k], (direct + [first.result])[k]) {
      if k < i {
        assert done[k] == requests[..i][k];
      }
    }
  }

  /** What the calls returned and left in read_data is what these results say. */
  predicate Obtained(results: seq<Confirmed>, rets: seq<int>, data: seq<seq<byte>>) {
    && |results| == |rets| == |data|
    && forall i :: 0 <= i < |results| ==>
         rets[i] == results[i].ret && (results[i].read.Some? ==> results[i].read.value <= data[i])
  }

  /** One call of a run, with memory of its own for the data. */
  method PerformNext(m: SmallModbus, s: SmallModbus, r: Request, t: Table)
    returns (ret: int, data: seq<byte>, t': Table, ghost c: Confirmed)
    requires Idle(m, s) && r.Backed()
    modifies m.readBuff, m.writeBuff, m.port, m`transferId, s.readBuff, s.writeBuff, s.port, s`transferId
    ensures Idle(m, s)
    ensures t' == Local(t, r).table && Agrees(r, c, Local(t, r).result)
    ensures ret == c.ret && (c.read.Some? ==> c.read.value <= data)
  {
    hide Idle, Local, Agrees;
    var writeData := new byte[|r.data|](k requires 0 <= k < |r.data| => r.data[k]);
    var readData := new byte[MAX_ADU](_ => 0);
    assert writeData[..] == r.data;
    ret, t', c := Perform(m, s, r, writeData, readData, t);
    data := readData[..];
  }

  /**
   * A whole run of calls, carried out by both sides over the cutting link: the table, the return values
   * and the data read are those of the direct operations.
   */
  method PerformAll(m: SmallModbus, s: SmallModbus, requests: seq<Request>, start: Table)
    returns (t: Table, rets: seq<int>, data: seq<seq<byte>>, ghost results: seq<Confirmed>)
    requires Idle(m, s)
    requires forall i :: 0 <= i < |requests| ==> requests[i].Backed()
    modifies m.readBuff, m.writeBuff, m.port, m`transferId, s.readBuff, s.writeBuff, s.port, s`transferId
    ensures Idle(m, s)
    ensures t == LocalRun(start, requests).table
    ensures AllAgree(requests, results, LocalRun(start, requests).results)
    ensures Obtained(results, rets, data)
  {
    t, rets, data, results := start, [], [], [];
    ghost var direct: seq<Direct> := [];
    hide Idle, Underway, Local, LocalRun, Agrees;
    NoneYet(start, requests);
    for i := 0 to |requests|
      invariant Idle(m, s)
      invariant Underway(start, requests, i, t, results, direct)
      invariant Obtained(results, rets, data)
    {
      var ret, datum, t';
      ghost var c;
      ret, datum, t', c := PerformNext(m, s, requests[i], t);
      OneMore(start, requests, i, t, results, direct, c);
      rets, data, results := rets + [ret], data + [datum], results + [c];
      direct := direct + [Local(t, requests[i]).result];
      t := t';
    }
    AllDone(start, requests, t, results, direct);
  }
}
