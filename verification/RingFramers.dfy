// modbus_slave_wait and modbus_wait_confirm over the win32 serial port: the same framers, and the same
// contracts, with the device's stream and plan in place of the abstract port's.

module RingFramers {
  import opened Bytes
  import opened Codec
  import opened Cores
  import opened Framing
  import opened Context
  import opened Framers
  import P = Ports
  import opened Ring
  import opened Win32Port

  /** The device and its memory are not the buffer that is read into. */
  predicate Separate(dev: Device, buff: array<byte>) {
    buff != dev.ring.pool && buff != dev.readBuff
  }

  /** What reading the device's stream into a buffer leaves behind. */
  twostate predicate RingReadOff(dev: Device, buff: array<byte>, taken: nat)
    requires buff.Length == MAX_ADU && old(dev.Valid()) && dev.Valid()
    reads dev, dev.ring, dev.ring.pool, buff
  {
    && taken <= |old(dev.Stream())| && taken <= MAX_ADU
    && P.Rest(PlanOf(dev.blocks), PlanOf(old(dev.blocks)))
    && dev.Stream() == old(dev.Stream())[taken..]
    && buff[..] == Overwrite(old(buff[..]), 0, old(dev.Stream())[..taken])
  }

  /** The device gave up after this much of the stream, with this result. */
  twostate predicate RingCutShort(dev: Device, taken: nat, ret: int)
    requires old(dev.Valid())
    reads dev, dev.ring, dev.ring.pool
  {
    P.Excused(PlanOf(old(dev.blocks)), ret, taken == |old(dev.Stream())|)
  }

  /** modbus_want_read over the ring as a step along a stream. */
  method ReadOnward(dev: Device, buff: array<byte>, length: nat, want: nat, wait: int,
                    ghost stream: seq<byte>, ghost was: seq<byte>, ghost start: seq<P.Event>)
    returns (n: int, ghost taken: nat)
    requires SoFar(dev, buff, 0, stream, was, length) && length + want <= buff.Length && Separate(dev, buff)
    requires P.Rest(PlanOf(dev.blocks), start)
    modifies dev`blocks, dev.readBuff, dev.ring, dev.ring.pool, buff
    ensures SoFar(dev, buff, 0, stream, was, taken) && P.Rest(PlanOf(dev.blocks), start)
    ensures n >= 0 ==> n == want && taken == length + want
    ensures n < 0 ==> length <= taken < length + want && P.Excused(start, n, taken == |stream|)
  {
    hide PlanOf, P.Arrivals, P.Rest, P.Excused, Held;
    ghost var got, waits: nat;
    ghost var before := PlanOf(dev.blocks);
    n, got, waits := WantRead(dev, buff, length, want, wait);
    P.ReadOn(was, 0, stream, length, got, buff[..]);
    P.RestOfRest(PlanOf(dev.blocks), before, start);
    if n < 0 {
      P.ExcusedBefore(before, start, n, got == |stream| - length);
    }
    taken := length + got;
  }

  lemma ReadSoFar(dev: Device, buff: array<byte>, stream: seq<byte>, was: seq<byte>, k: nat)
    requires SoFar(dev, buff, 0, stream, was, k)
    ensures k <= buff.Length && buff[..k] == stream[..k]
  {
    assert buff[..][..k] == stream[..k];
  }

  lemma ReliableEnd(blocks: seq<Block>, rc: int, exhausted: bool)
    requires Steady(blocks) && P.Excused(PlanOf(blocks), rc, exhausted)
    ensures exhausted && rc == MODBUS_TIMEOUT
  {
    SteadyIsReliable(blocks);
  }

  /** The loop of modbus_slave_wait. */
  method AssembleRequest(smb: SmallModbus, dev: Device, request: array<byte>, waitTime: int)
    returns (ret: int, ghost taken: nat, ghost failed: bool)
    requires dev.Valid() && Separate(dev, request) && request.Length == MAX_ADU
    modifies dev`blocks, dev.readBuff, dev.ring, dev.ring.pool, request
    ensures dev.Valid() && RingReadOff(dev, request, taken)
    ensures failed ==> RingCutShort(dev, taken, ret) && ScanRequest(smb.core, old(dev.Stream())[..taken]) == More
    ensures !failed ==>
              match ScanRequest(smb.core, old(dev.Stream()))
              case More => false
              case TooLong(seen) => taken == seen && ret == MODBUS_FAIL
              case Whole(n) => taken == n && ret == n
    ensures 0 <= ret ==> ret <= |old(dev.Stream())| && ret <= MAX_ADU && request[..ret] == old(dev.Stream())[..ret]
  {
    hide Overwrite, PlanOf, P.Arrivals, P.Rest, P.Excused, Held;
    ghost var stream, was, start := dev.Stream(), request[..], PlanOf(dev.blocks);
    NothingYet(dev, request, 0);
    var core, wait := smb.core, waitTime;
    var step: nat := 0;
    var want: nat := core.Header() + 1;
    var length: nat := 0;
    taken, failed := 0, false;

    while want != 0
      invariant RequestProgress(core, stream, step, length, want)
      invariant SoFar(dev, request, 0, stream, was, length) && P.Rest(PlanOf(dev.blocks), start)
      decreases 2 - step, want
    {
      var n, tooLong;
      n, taken := ReadOnward(dev, request, length, want, wait, stream, was, start);
      if n < MODBUS_OK {
        RequestCutShort(core, stream, step, length, want, taken);
        return n, taken, true;
      }
      ReadSoFar(dev, request, stream, was, length + want);
      step, length, want, tooLong := RequestStep(core, request, stream, step, length, want);
      if tooLong {
        return MODBUS_FAIL, taken, failed;
      }
      wait := smb.timeoutByte * want;
    }
    ReadSoFar(dev, request, stream, was, length);
    return length, length, failed;
  }

  /** modbus_slave_wait */
  method SlaveWait(smb: SmallModbus, dev: Device, request: array<byte>, waitTime: int)
    returns (ret: int, ghost taken: nat, ghost failed: bool)
    requires dev.Valid() && Separate(dev, request) && request.Length == MAX_ADU
    modifies dev`blocks, dev.readBuff, dev.ring, dev.ring.pool, request, smb`transferId
    ensures dev.Valid() && RingReadOff(dev, request, taken)
    ensures failed ==> RingCutShort(dev, taken, ret) && ScanRequest(smb.core, old(dev.Stream())[..taken]) == More
    ensures !failed ==> RequestFramed(smb.core, smb.slaveAddr, old(dev.Stream()), taken, ret)
    ensures Steady(old(dev.blocks)) ==> (failed <==> ScanRequest(smb.core, old(dev.Stream())) == More)
    ensures Steady(old(dev.blocks)) && failed ==> ret == MODBUS_TIMEOUT && taken == |old(dev.Stream())|
    ensures smb.transferId == if !failed && ScanRequest(smb.core, old(dev.Stream())).Whole?
              then RememberedId(smb.core, smb.slaveAddr, old(smb.transferId), old(dev.Stream())[..taken])
              else old(smb.transferId)
  {
    hide RequestVerdict, RememberedId, Overwrite, PlanOf, P.Arrivals, P.Rest, Steady, Held;
    ghost var blocks := dev.blocks;
    ret, taken, failed := AssembleRequest(smb, dev, request, waitTime);
    if failed && Steady(blocks) {
      ReliableEnd(blocks, ret, taken == |old(dev.Stream())|);
    }
    if ret < MODBUS_OK {
      return;
    }
    var tid;
    ret, tid := CheckWaitRequest(smb.core, smb.slaveAddr, smb.transferId, request, ret);
    smb.transferId := tid;
  }

  /** The loop of modbus_wait_confirm. */
  method AssembleReply(smb: SmallModbus, dev: Device, response: array<byte>)
    returns (ret: int, ghost taken: nat, ghost failed: bool)
    requires dev.Valid() && Separate(dev, response) && response.Length == MAX_ADU
    modifies dev`blocks, dev.readBuff, dev.ring, dev.ring.pool, response
    ensures dev.Valid() && RingReadOff(dev, response, taken)
    ensures failed ==> RingCutShort(dev, taken, ret) && ScanReply(smb.core, old(dev.Stream())[..taken]) == More
    ensures !failed ==>
              match ScanReply(smb.core, old(dev.Stream()))
              case More => false
              case TooLong(seen) => taken == seen && ret == MODBUS_FAIL_CONFIRM
              case Whole(n) => taken == n && ret == n
    ensures 0 <= ret ==> ret <= |old(dev.Stream())| && ret <= MAX_ADU && response[..ret] == old(dev.Stream())[..ret]
  {
    hide Overwrite, PlanOf, P.Arrivals, P.Rest, P.Excused, Held;
    ghost var stream, was, start := dev.Stream(), response[..], PlanOf(dev.blocks);
    NothingYet(dev, response, 0);
    var core, wait := smb.core, smb.timeoutFrame;
    var position: nat := 0;
    var want: nat := core.Header() + 1;
    var length: nat := 0;
    taken, failed := 0, false;

    while want != 0
      invariant ReplyProgress(core, stream, position, length, want)
      invariant SoFar(dev, response, 0, stream, was, length) && P.Rest(PlanOf(dev.blocks), start)
      decreases 2 - position, want
    {
      var n, tooLong;
      n, taken := ReadOnward(dev, response, length, want, wait, stream, was, start);
      if n < MODBUS_OK {
        ReplyCutShort(core, stream, position, length, want, taken);
        return n, taken, true;
      }
      ReadSoFar(dev, response, stream, was, length + want);
      position, length, want, tooLong := ReplyStep(core, response, stream, position, length, want);
      if tooLong {
        return MODBUS_FAIL_CONFIRM, taken, failed;
      }
      wait := smb.timeoutByte * want;
    }
    ReadSoFar(dev, response, stream, was, length);
    return length, length, failed;
  }

  /** modbus_wait_confirm */
  method WaitConfirm(smb: SmallModbus, dev: Device, response: array<byte>)
    returns (ret: int, ghost taken: nat, ghost failed: bool)
    requires dev.Valid() && Separate(dev, response) && response.Length == MAX_ADU
    modifies dev`blocks, dev.readBuff, dev.ring, dev.ring.pool, response
    ensures dev.Valid() && RingReadOff(dev, response, taken)
    ensures failed ==> RingCutShort(dev, taken, ret) && ScanReply(smb.core, old(dev.Stream())[..taken]) == More
    ensures !failed ==> ReplyFramed(smb.core, smb.slaveAddr, smb.transferId, old(dev.Stream()), taken, ret)
    ensures Steady(old(dev.blocks)) ==> (failed <==> ScanReply(smb.core, old(dev.Stream())) == More)
    ensures Steady(old(dev.blocks)) && failed ==> ret == MODBUS_TIMEOUT && taken == |old(dev.Stream())|
  {
    hide ResponseVerdict, Overwrite, PlanOf, P.Arrivals, P.Rest, Steady, Held;
    ghost var blocks := dev.blocks;
    ret, taken, failed := AssembleReply(smb, dev, response);
    if failed && Steady(blocks) {
      ReliableEnd(blocks, ret, taken == |old(dev.Stream())|);
    }
    if ret < MODBUS_OK {
      return;
    }
    ret := CheckWaitResponse(smb.core, smb.slaveAddr, smb.transferId, response, ret);
  }
}
