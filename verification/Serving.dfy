// A slave on a line with other units: a stream of requests of any masters to any units, cut up in any
// way, is served by successive calls of modbus_slave_wait_handle, and its replies come apart again.

module Serving {
  import opened Bytes
  import opened Cores
  import opened Framing
  import opened Ports
  import opened Context
  import opened Protocol
  import opened Exchange
  import opened Slave
  import opened Remote
  import opened Tables
  import opened Streams

  /** The requests this slave is meant to serve, in order. */
  function ForHere(slaveAddr: byte, ms: seq<Sent>): (mine: seq<Sent>)
    ensures AllLegal(ms) ==> AllLegal(mine)
    decreases |ms|
  {
    if ms == [] then []
    else if ms[0].unit == slaveAddr || ms[0].unit == 0 then [ms[0]] + ForHere(slaveAddr, ms[1..])
    else ForHere(slaveAddr, ms[1..])
  }

  function RequestsFrom(ms: seq<Sent>): (requests: seq<Request>)
    ensures |requests| == |ms|
  {
    seq(|ms|, i requires 0 <= i < |ms| => ms[i].request)
  }

  /** A reply to this request: one frame that its master accepts, and reads as the given result. */
  predicate Answers(core: Core, slaveAddr: byte, m: Sent, reply: seq<byte>, d: Direct) {
    && m.request.Legal()
    && ScanReply(core, reply) == Whole(|reply|) && ResponseVerdict(core, slaveAddr, m.tid, reply) > 0
    && Delivers(core, m.tid, slaveAddr, m.request, Adu(core, m.tid, slaveAddr, RequestPdu(m.request)), reply, d)
  }

  lemma TableSideAnswers(core: Core, slaveTid: word, slaveAddr: byte, m: Sent, old_: Leftovers, t: Table)
    requires m.request.Legal() && old_.Valid() && ForUs(slaveAddr, m.unit)
    ensures var (t', reply) := TableSide(core, slaveAddr, slaveTid, FrameOf(core, m), old_, t);
            t' == Local(t, m.request).table && Answers(core, slaveAddr, m, reply, Local(t, m.request).result)
  {
    hide SlaveSide, RequestPdu, Adu, Local, Delivers, ScanReply, ResponseVerdict, TableCallback, WellBehaved;
    var r, own := m.request, Adu(core, m.tid, slaveAddr, RequestPdu(m.request));
    TableIsWellBehaved();
    UnitIsImmaterial(core, m.tid, slaveTid, m.unit, slaveAddr, r, old_, Some(TableCallback), t);
    var reply := TableSide(core, slaveAddr, slaveTid, own, old_, t).1;
    TableAfter(core, m.tid, slaveTid, slaveAddr, r, old_, t);
    TableReplyFramed(core, m.tid, slaveTid, slaveAddr, r, old_, t, reply);
    ResultIsLocal(core, m.tid, slaveTid, slaveAddr, r, old_, t, reply);
  }

  /** What one call leaves to be done, and the one reply it sends, or none. */
  ghost predicate Served(core: Core, slaveAddr: byte, m: Sent, t: Table, t': Table, replies: seq<seq<byte>>) {
    if m.request.Legal() && ForUs(slaveAddr, m.unit) then
      && t' == Local(t, m.request).table
      && |replies| == 1 && Answers(core, slaveAddr, m, replies[0], Local(t, m.request).result)
    else t' == t && replies == []
  }

  /** One call: the first frame is taken, and answered if and only if it is for this slave or for all. */
  method ServeNext(smb: SmallModbus, ghost ms: seq<Sent>, t: Table, waitTime: int)
    returns (t': Table, ghost replies: seq<seq<byte>>)
    requires smb.Valid() && AllLegal(ms) && ms != [] && Reliable(smb.port.plan)
    requires smb.port.Stream() == Concat(FramesOf(smb.core, ms))
    modifies smb.readBuff, smb.writeBuff, smb.port, smb`transferId
    ensures smb.port.Stream() == Concat(FramesOf(smb.core, ms[1..])) && Reliable(smb.port.plan)
    ensures smb.port.sent == old(smb.port.sent) + replies
    ensures Served(smb.core, smb.slaveAddr, ms[0], t, t', replies)
  {
    hide FrameOf, FramesOf, Concat, ScanRequest, Answers, Local, Arrivals, Rest, Intact;
    ghost var core, first, rest := smb.core, FrameOf(smb.core, ms[0]), Concat(FramesOf(smb.core, ms[1..]));
    ghost var old_, tid := Leftovers(smb.readBuff[..], smb.writeBuff[..]), smb.transferId;
    ghost var sent, plan, stream := smb.port.sent, smb.port.plan, smb.port.Stream();
    HeadAndTail(core, ms);
    assert (first + rest)[..|first|] == first && (first + rest)[|first|..] == rest;
    VerdictByAddress(core, smb.slaveAddr, ms[0]);
    FirstServed(core, smb.slaveAddr, tid, ms[0], old_, t);
    TableIsWellBehaved();
    var ret;
    ghost var taken: nat;
    ghost var failed: bool;
    ret, t', taken, failed := SlaveWaitHandle(smb, Some(TableCallback), t, waitTime);
    RestOfReliable(smb.port.plan, plan);
    assert stream[..|stream|] == stream;
    replies := smb.port.sent[|sent|..];
  }

  /** The frame alone leads the slave to what the specification says. */
  lemma FirstServed(core: Core, slaveAddr: byte, tid: word, m: Sent, old_: Leftovers, t: Table)
    requires m.request.Legal() && old_.Valid()
    ensures |FrameOf(core, m)| <= MAX_ADU && ScanRequest(core, FrameOf(core, m)) == Whole(|FrameOf(core, m)|)
    ensures |FrameOf(core, m)| > core.Header() + core.Checksum()
    ensures ForUs(slaveAddr, m.unit) ==>
              var frame := FrameOf(core, m);
              var answer := Serve(core, slaveAddr, InBuffer(frame, old_.readBuff), old_.writeBuff,
                                  (TableIsWellBehaved(); Some(TableCallback)), t);
              && answer.state == Local(t, m.request).table
              && Answers(core, slaveAddr, m,
                         Adu(core, RememberedId(core, slaveAddr, tid, frame), slaveAddr, answer.pdu),
                         Local(t, m.request).result)
  {
    hide RequestPdu, Local, Answers, Serve, Intact;
    var frame := FrameOf(core, m);
    FirstFrame(core, m, []);
    assert frame + [] == frame && frame[..|frame|] == frame;
    UnitAccepted(core, m.tid, tid, m.unit, m.unit, m.request);
    VerdictByAddress(core, slaveAddr, m);
    if ForUs(slaveAddr, m.unit) {
      TableSideAnswers(core, tid, slaveAddr, m, old_, t);
    }
  }

  /**
   * As many calls as there are requests: the table ends as the requests for this slave leave it when they
   * are carried out directly, one after another, and for each of them, in order, one reply has gone out
   * that its master reads as the result of the direct operation. Nothing is left on the line.
   */
  method ServeAll(smb: SmallModbus, ms: seq<Sent>, t: Table, waitTime: int)
    returns (t': Table, ghost replies: seq<seq<byte>>)
    requires smb.Valid() && AllLegal(ms) && Reliable(smb.port.plan)
    requires smb.port.Stream() == Concat(FramesOf(smb.core, ms))
    modifies smb.readBuff, smb.writeBuff, smb.port, smb`transferId
    ensures smb.port.Stream() == [] && Reliable(smb.port.plan) && smb.port.sent == old(smb.port.sent) + replies
    ensures AllServed(smb.core, smb.slaveAddr, ForHere(smb.slaveAddr, ms), t, t', replies)
    decreases |ms|
  {
    hide FrameOf, FramesOf, Local, Answers, Served;
    if ms == [] {
      assert FramesOf(smb.core, ms) == [];
      return t, [];
    }
    ghost var first, rest: seq<seq<byte>>;
    var middle;
    middle, first := ServeNext(smb, ms, t, waitTime);
    t', rest := ServeAll(smb, ms[1..], middle, waitTime);
    replies := first + rest;
    OneServed(smb.core, smb.slaveAddr, ms, t, middle, t', first, rest);
  }

  /** A run of requests for this slave, carried out directly, explains table and replies. */
  ghost predicate AllServed(core: Core, slaveAddr: byte, mine: seq<Sent>, t: Table, t': Table,
                            replies: seq<seq<byte>>) {
    var run := LocalRun(t, RequestsFrom(mine));
    && t' == run.table && |replies| == |mine| == |run.results|
    && forall i :: 0 <= i < |mine| ==> Answers(core, slaveAddr, mine[i], replies[i], run.results[i])
  }

  lemma RequestsCons(m: Sent, later: seq<Sent>)
    ensures RequestsFrom([m] + later) == [m.request] + RequestsFrom(later)
  {
  }

  lemma RunCons(t: Table, r: Request, later: seq<Request>)
    ensures var run, rest := LocalRun(t, [r] + later), LocalRun(Local(t, r).table, later);
            run.table == rest.table && run.results == [Local(t, r).result] + rest.results
  {
    assert ([r] + later)[1..] == later;
  }

  lemma OneAhead(core: Core, slaveAddr: byte, m: Sent, later: seq<Sent>, t: Table, t': Table,
                 reply: seq<byte>, rest: seq<seq<byte>>)
    requires Answers(core, slaveAddr, m, reply, Local(t, m.request).result)
    requires AllServed(core, slaveAddr, later, Local(t, m.request).table, t', rest)
    ensures AllServed(core, slaveAddr, [m] + later, t, t', [reply] + rest)
  {
    hide Local, Answers, LocalRun, RequestsFrom;
    RequestsCons(m, later);
    RunCons(t, m.request, RequestsFrom(later));
  }

  lemma OneServed(core: Core, slaveAddr: byte, ms: seq<Sent>, t: Table, middle: Table, t': Table,
                  first: seq<seq<byte>>, rest: seq<seq<byte>>)
    requires AllLegal(ms) && ms != [] && Served(core, slaveAddr, ms[0], t, middle, first)
    requires AllServed(core, slaveAddr, ForHere(slaveAddr, ms[1..]), middle, t', rest)
    ensures AllServed(core, slaveAddr, ForHere(slaveAddr, ms), t, t', first + rest)
  {
    hide Local, Answers, AllServed;
    if ForUs(slaveAddr, ms[0].unit) {
      OneAhead(core, slaveAddr, ms[0], ForHere(slaveAddr, ms[1..]), t, t', first[0], rest);
      assert [first[0]] == first;
    } else {
      assert first + rest == rest;
    }
  }

  // ---------- On the way back ----------

  /** The frames successive calls of modbus_wait_confirm take off a stream. */
  function SplitReplies(core: Core, s: seq<byte>): seq<seq<byte>>
    decreases |s|
  {
    match ScanReply(core, s)
    case Whole(n) =>
      FramesFit(core, s);
      [s[..n]] + SplitReplies(core, s[n..])
    case _ => []
  }

  /** Replies sent one after another come apart on the master's side into exactly those replies. */
  lemma {:induction false} RepliesComeApart(core: Core, replies: seq<seq<byte>>)
    requires forall i :: 0 <= i < |replies| ==> ScanReply(core, replies[i]) == Whole(|replies[i]|)
    ensures SplitReplies(core, Concat(replies)) == replies
    decreases |replies|
  {
    if replies != [] {
      hide ScanReply;
      var first, rest := replies[0], Concat(replies[1..]);
      ReplyDecided(core, first, first + rest);
      RepliesComeApart(core, replies[1..]);
      assert (first + rest)[..|first|] == first && (first + rest)[|first|..] == rest;
      assert replies == [first] + replies[1..];
    }
  }
}
