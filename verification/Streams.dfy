// Properties of the framers for every stream: bounds, self-delimitation, and the splitting of a stream
// of concatenated frames.

module Streams {
  import opened Bytes
  import opened Codec
  import opened Cores
  import opened Framing
  import opened Protocol
  import opened Exchange
  import opened Ports
  import opened Context
  import opened Framers

  // ---------- Bounds ----------

  /**
   * A framed unit fits the largest unit, and is long enough for every index the checkers use: address,
   * function code, CRC octets or the seven of the MBAP header.
   */
  lemma FramesFit(core: Core, s: seq<byte>)
    ensures ScanRequest(core, s).Whole? ==>
              core.Header() + 1 + core.Checksum() <= ScanRequest(core, s).length <= MAX_ADU
              && ScanRequest(core, s).length <= |s|
    ensures ScanReply(core, s).Whole? ==>
              core.Header() + 2 + core.Checksum() <= ScanReply(core, s).length <= MAX_ADU
              && ScanReply(core, s).length <= |s|
    ensures ScanRequest(core, s).TooLong? ==> ScanRequest(core, s).seen <= core.Header() + 10
    ensures ScanReply(core, s).TooLong? ==> ScanReply(core, s).seen <= core.Header() + 7
  {
  }

  // ---------- RTU units beyond 256 octets ----------

  const RTU_LIMIT: nat := 256

  /** A framed RTU request exceeds the 256 octets of a serial line unit exactly for these count octets. */
  lemma LongRequestsExactly(s: seq<byte>)
    requires ScanRequest(RTU, s).Whole?
    ensures ScanRequest(RTU, s).length > RTU_LIMIT <==>
            (IsWriteMultiple(s[1]) && s[6] >= 248) || (s[1] == WRITE_AND_READ_REGISTERS && s[10] >= 244)
  {
  }

  /** So does a framed RTU reply, for these. */
  lemma LongRepliesExactly(s: seq<byte>)
    requires ScanReply(RTU, s).Whole?
    ensures ScanReply(RTU, s).length > RTU_LIMIT <==> IsRead(s[1]) && s[2] >= 252
  {
  }

  /** The four longest multiple writes exceed it, and are accepted. */
  lemma LongRequestAccepted(slaveAddr: byte, data: seq<byte>)
    requires 248 <= |data| <= 251
    ensures var frame := Adu(RTU, 0, slaveAddr, [WRITE_REGISTERS, 0, 0, 0, 1, |data|] + data);
            && RTU_LIMIT < |frame| <= MAX_ADU && ScanRequest(RTU, frame) == Whole(|frame|)
            && RequestVerdict(RTU, slaveAddr, frame) == |frame|
  {
    hide Intact;
    AduIsIntact(RTU, 0, slaveAddr, [WRITE_REGISTERS, 0, 0, 0, 1, |data|] + data);
  }

  /** So do the four longest read replies. */
  lemma LongReplyAccepted(slaveAddr: byte, tid: word, f: byte, data: seq<byte>)
    requires IsRead(f) && 252 <= |data| <= 255
    ensures var frame := Adu(RTU, tid, slaveAddr, [f, |data|] + data);
            && RTU_LIMIT < |frame| <= MAX_ADU && ScanReply(RTU, frame) == Whole(|frame|)
            && ResponseVerdict(RTU, slaveAddr, tid, frame) == |frame|
  {
    hide Intact;
    AduIsIntact(RTU, tid, slaveAddr, [f, |data|] + data);
  }

  // ---------- Self-delimitation ----------

  /** What a framer has decided about a stream it decides about every longer stream, and not before. */
  lemma RequestDecided(core: Core, s: seq<byte>, t: seq<byte>)
    requires s <= t
    ensures ScanRequest(core, s) != More ==> ScanRequest(core, t) == ScanRequest(core, s)
    ensures ScanRequest(core, t).Whole? && |s| < ScanRequest(core, t).length ==> ScanRequest(core, s) == More
  {
  }

  lemma ReplyDecided(core: Core, s: seq<byte>, t: seq<byte>)
    requires s <= t
    ensures ScanReply(core, s) != More ==> ScanReply(core, t) == ScanReply(core, s)
    ensures ScanReply(core, t).Whole? && |s| < ScanReply(core, t).length ==> ScanReply(core, s) == More
  {
  }

  // ---------- Splitting ----------

  /** The frames successive calls of modbus_slave_wait take off a stream. */
  function Split(core: Core, s: seq<byte>): seq<seq<byte>>
    decreases |s|
  {
    match ScanRequest(core, s)
    case Whole(n) =>
      FramesFit(core, s);
      [s[..n]] + Split(core, s[n..])
    case _ => []
  }

  function Concat(frames: seq<seq<byte>>): seq<byte>
    decreases |frames|
  {
    if frames == [] then [] else frames[0] + Concat(frames[1..])
  }

  /** A request as some master sends it: to any unit, with any transaction identifier. */
  datatype Sent = Sent(tid: word, unit: byte, request: Request)

  function FrameOf(core: Core, m: Sent): seq<byte>
    requires m.request.Legal()
  {
    Adu(core, m.tid, m.unit, RequestPdu(m.request))
  }

  predicate AllLegal(ms: seq<Sent>) {
    forall i :: 0 <= i < |ms| ==> ms[i].request.Legal()
  }

  function FramesOf(core: Core, ms: seq<Sent>): (frames: seq<seq<byte>>)
    requires AllLegal(ms)
    ensures |frames| == |ms|
  {
    seq(|ms|, i requires 0 <= i < |ms| => FrameOf(core, ms[i]))
  }

  lemma FirstFrame(core: Core, m: Sent, rest: seq<byte>)
    requires m.request.Legal()
    ensures ScanRequest(core, FrameOf(core, m) + rest) == Whole(|FrameOf(core, m)|)
  {
    var pdu := RequestPdu(m.request);
    AduCarries(core, m.tid, m.unit, pdu);
    CarriesMore(core, FrameOf(core, m), pdu, rest);
    RequestDelimited(core, m.request, FrameOf(core, m) + rest);
  }

  lemma FramesOfCons(core: Core, ms: seq<Sent>)
    requires AllLegal(ms) && ms != []
    ensures FramesOf(core, ms) == [FrameOf(core, ms[0])] + FramesOf(core, ms[1..])
  {
    hide FrameOf;
  }

  lemma SplitOne(core: Core, frame: seq<byte>, rest: seq<byte>)
    requires ScanRequest(core, frame + rest) == Whole(|frame|)
    ensures Split(core, frame + rest) == [frame] + Split(core, rest)
  {
    hide ScanRequest;
    assert (frame + rest)[..|frame|] == frame && (frame + rest)[|frame|..] == rest;
  }

  /** Frames of any masters to any units, one after another, come apart into exactly those frames. */
  lemma {:induction false} SplitsIntoFrames(core: Core, ms: seq<Sent>)
    requires AllLegal(ms)
    ensures Split(core, Concat(FramesOf(core, ms))) == FramesOf(core, ms)
    decreases |ms|
  {
    if ms == [] {
      assert Concat(FramesOf(core, ms)) == [];
    } else {
      hide FrameOf, FramesOf, ScanRequest, Split, Concat;
      HeadAndTail(core, ms);
      SplitOne(core, FrameOf(core, ms[0]), Concat(FramesOf(core, ms[1..])));
      SplitsIntoFrames(core, ms[1..]);
      FramesOfCons(core, ms);
    }
  }

  /** A frame to another unit is refused, an intact frame to this unit or to all is accepted. */
  lemma VerdictByAddress(core: Core, slaveAddr: byte, m: Sent)
    requires m.request.Legal()
    ensures RequestVerdict(core, slaveAddr, FrameOf(core, m)) ==
            VerdictOf(core, slaveAddr, m)
  {
    AduIsIntact(core, m.tid, m.unit, RequestPdu(m.request));
  }

  lemma HeadAndTail(core: Core, ms: seq<Sent>)
    requires AllLegal(ms) && ms != []
    ensures Concat(FramesOf(core, ms)) == FrameOf(core, ms[0]) + Concat(FramesOf(core, ms[1..]))
    ensures ScanRequest(core, Concat(FramesOf(core, ms))) == Whole(|FrameOf(core, ms[0])|)
  {
    hide FrameOf, ScanRequest;
    assert FramesOf(core, ms)[1..] == FramesOf(core, ms[1..]);
    FirstFrame(core, ms[0], Concat(FramesOf(core, ms[1..])));
  }

  function VerdictOf(core: Core, slaveAddr: byte, m: Sent): int
    requires m.request.Legal()
  {
    if m.unit == slaveAddr || m.unit == 0 then |FrameOf(core, m)| else -6
  }

  /**
   * One call of modbus_slave_wait on a stream of frames, cut up in any way: it takes exactly the first
   * frame into the buffer and leaves the others, also when that frame is for another unit.
   */
  method ReceiveNext(smb: SmallModbus, ghost ms: seq<Sent>, waitTime: int) returns (ret: int)
    requires smb.Valid() && AllLegal(ms) && ms != [] && Reliable(smb.port.plan)
    requires smb.port.Stream() == Concat(FramesOf(smb.core, ms))
    modifies smb.port, smb.readBuff, smb`transferId
    ensures ret == VerdictOf(smb.core, smb.slaveAddr, ms[0])
    ensures FrameOf(smb.core, ms[0]) <= smb.readBuff[..]
    ensures smb.port.Stream() == Concat(FramesOf(smb.core, ms[1..])) && Reliable(smb.port.plan)
  {
    hide FrameOf, FramesOf, Concat, ScanRequest, RequestVerdict;
    ghost var first, rest := FrameOf(smb.core, ms[0]), Concat(FramesOf(smb.core, ms[1..]));
    HeadAndTail(smb.core, ms);
    assert (first + rest)[..|first|] == first && (first + rest)[|first|..] == rest;
    VerdictByAddress(smb.core, smb.slaveAddr, ms[0]);
    ghost var plan := smb.port.plan;
    ghost var taken: nat;
    ghost var failed: bool;
    ret, taken, failed := SlaveWait(smb, smb.readBuff, waitTime);
    RestOfReliable(smb.port.plan, plan);
  }

  /** As many calls as there are frames take them one by one, in order, and nothing is left. */
  method ReceiveAll(smb: SmallModbus, ms: seq<Sent>, waitTime: int) returns (rets: seq<int>, buffers: seq<seq<byte>>)
    requires smb.Valid() && AllLegal(ms) && Reliable(smb.port.plan)
    requires smb.port.Stream() == Concat(FramesOf(smb.core, ms))
    modifies smb.port, smb.readBuff, smb`transferId
    ensures |rets| == |buffers| == |ms|
    ensures forall i :: 0 <= i < |ms| ==>
              rets[i] == VerdictOf(smb.core, smb.slaveAddr, ms[i]) && FrameOf(smb.core, ms[i]) <= buffers[i]
    ensures smb.port.Stream() == []
  {
    hide FrameOf, FramesOf, VerdictOf;
    rets, buffers := [], [];
    assert ms[0..] == ms;
    for k := 0 to |ms|
      invariant |rets| == |buffers| == k && Reliable(smb.port.plan)
      invariant smb.port.Stream() == Concat(FramesOf(smb.core, ms[k..]))
      invariant forall i :: 0 <= i < k ==>
                  rets[i] == VerdictOf(smb.core, smb.slaveAddr, ms[i]) && FrameOf(smb.core, ms[i]) <= buffers[i]
    {
      assert ms[k..][1..] == ms[k + 1..];
      var ret := ReceiveNext(smb, ms[k..], waitTime);
      rets, buffers := rets + [ret], buffers + [smb.readBuff[..]];
    }
    assert FramesOf(smb.core, ms[|ms|..]) == [];
  }
}
