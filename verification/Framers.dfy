// modbus_slave_wait and modbus_wait_confirm: the incremental framers over a fragmenting port.

module Framers {
  import opened Bytes
  import opened Codec
  import opened Cores
  import opened Framing
  import opened Ports
  import opened Context

  /** What a framer that was not cut short by the port has done with the stream. */
  ghost predicate RequestFramed(core: Core, slaveAddr: byte, stream: seq<byte>, taken: nat, ret: int) {
    match ScanRequest(core, stream)
    case More => false
    case TooLong(seen) => taken == seen && ret == MODBUS_FAIL
    case Whole(n) => taken == n && ret == RequestVerdict(core, slaveAddr, stream[..n])
  }

  /** The switch of modbus_slave_wait, taken when everything asked for has been read. */
  method NextRequestPart(core: Core, request: array<byte>, step: nat, length: nat)
    returns (step': nat, want: nat)
    requires core.Header() < length <= request.Length
    requires step == 0 ==> length == core.Header() + 1
    requires step == 1 ==> length == core.Header() + 1 + RequestFixed(request[core.Header()])
    ensures step == 0 && RequestFixed(request[core.Header()]) > 0 ==>
              step' == 1 && want == RequestFixed(request[core.Header()])
    ensures step == 1 || (step == 0 && RequestFixed(request[core.Header()]) == 0) ==>
              step' == 2 && want == RequestCounted(core.Header(), request[..length]) + core.Checksum()
    ensures step > 1 ==> step' == step && want == 0
  {
    var h := core.Header();
    var function_ := request[h];
    step', want := step, 0;
    if step == 0 {
      if function_ <= WRITE_REGISTER {
        want := 4;
      } else if function_ == WRITE_COILS || function_ == WRITE_REGISTERS {
        want := 5;
      } else if function_ == MASK_WRITE_REGISTER {
        want := 6;
      } else if function_ == WRITE_AND_READ_REGISTERS {
        want := 9;
      }
      if want != 0 {
        return 1, want;
      }
    }
    if step <= 1 {
      if function_ == WRITE_COILS || function_ == WRITE_REGISTERS {
        want := request[h + 5];
      } else if function_ == WRITE_AND_READ_REGISTERS {
        want := request[h + 9];
      }
      want := want + core.Checksum();
      step' := 2;
    }
  }

  /** What the request framer knows between two reads: `length` octets read, `want` more asked for. */
  ghost predicate RequestProgress(core: Core, stream: seq<byte>, step: nat, length: nat, want: nat) {
    var h := core.Header();
    && length <= |stream|
    && step <= 2
    && (step == 0 ==> length == 0 && want == h + 1)
    && (step == 1 ==> length == h + 1 && want == RequestFixed(stream[h]) > 0)
    && (step == 2 ==> h < length && RequestRest(core, stream, length, want))
  }

  ghost predicate RequestRest(core: Core, stream: seq<byte>, length: nat, want: nat)
    requires core.Header() < length <= |stream|
  {
    var h := core.Header();
    && length + want <= MAX_ADU
    && length >= h + 1 + RequestFixed(stream[h])
    && length + want == h + 1 + RequestFixed(stream[h]) + RequestCounted(h, stream) + core.Checksum()
  }

  /** A framer that stops before it has what it asked for has not seen a whole frame. */
  lemma RequestCutShort(core: Core, stream: seq<byte>, step: nat, length: nat, want: nat, k: nat)
    requires RequestProgress(core, stream, step, length, want)
    requires length <= k < length + want && k <= |stream|
    ensures ScanRequest(core, stream[..k]) == More
  {
  }

  /** One pass through the switch keeps the framer's knowledge, or shows the frame to be too long. */
  lemma RequestAdvances(core: Core, stream: seq<byte>, step: nat, length: nat, step': nat, want: nat)
    requires core.Header() < length <= |stream|
    requires step == 0 ==> length == core.Header() + 1
    requires step == 1 ==> length == core.Header() + 1 + RequestFixed(stream[core.Header()])
    requires step <= 1
    requires step == 0 && RequestFixed(stream[core.Header()]) > 0 ==>
               step' == 1 && want == RequestFixed(stream[core.Header()])
    requires step == 1 || (step == 0 && RequestFixed(stream[core.Header()]) == 0) ==>
               step' == 2 && want == RequestCounted(core.Header(), stream[..length]) + core.Checksum()
    ensures length + want <= MAX_ADU ==> RequestProgress(core, stream, step', length, want)
    ensures length + want > MAX_ADU ==> ScanRequest(core, stream) == TooLong(length)
  {
  }

  /** What reading a stream into a buffer through a port leaves behind. */
  twostate predicate ReadOff(port: Port, buff: array<byte>, taken: nat)
    requires buff.Length == MAX_ADU
    reads port, buff
  {
    && taken <= |old(port.Stream())| && taken <= MAX_ADU
    && Rest(port.plan, old(port.plan))
    && port.Stream() == old(port.Stream())[taken..]
    && buff[..] == Overwrite(old(buff[..]), 0, old(port.Stream())[..taken])
  }

  /** The port gave up after this much of the stream, with this result. */
  twostate predicate CutShort(port: Port, taken: nat, ret: int)
    reads port
  {
    Excused(old(port.plan), ret, taken == |old(port.Stream())|)
  }

  /** modbus_want_read as a step along a stream. */
  method ReadOnward(port: Port, buff: array<byte>, length: nat, want: nat, wait: int,
                    ghost stream: seq<byte>, ghost was: seq<byte>, ghost start: seq<Event>)
    returns (n: int, ghost taken: nat)
    requires Rest(port.plan, start)
    requires SoFar(port, buff, 0, stream, was, length) && length + want <= buff.Length
    modifies port`rx, port`plan, buff
    ensures SoFar(port, buff, 0, stream, was, taken)
    ensures n >= 0 ==> n == want && taken == length + want
    ensures n < 0 ==> length <= taken < length + want && Excused(start, n, taken == |stream|)
    ensures Rest(port.plan, start)
  {
    ghost var got: nat;
    ghost var before := port.plan;
    n, got := WantRead(port, buff, length, want, wait);
    RestOfRest(port.plan, before, start);
    if n < 0 {
      ExcusedBefore(before, start, n, got == |stream| - length);
    }
    ReadOn(was, 0, stream, length, got, buff[..]);
    taken := length + got;
  }

  /** What the loop does when everything asked for has been read: on to the next part, or give up. */
  method RequestStep(core: Core, request: array<byte>, ghost stream: seq<byte>, step: nat, length: nat, want: nat)
    returns (step': nat, length': nat, want': nat, tooLong: bool)
    requires request.Length == MAX_ADU && RequestProgress(core, stream, step, length, want) && 0 < want
    requires length + want <= MAX_ADU && length + want <= |stream|
    requires request[..length + want] == stream[..length + want]
    ensures length' == length + want
    ensures tooLong ==> ScanRequest(core, stream) == TooLong(length')
    ensures !tooLong ==> RequestProgress(core, stream, step', length', want')
    ensures !tooLong ==> step < step' || (step' == step && want' == 0)
  {
    step', length', want', tooLong := step, length + want, 0, false;
    if step <= 1 {
      step', want' := NextRequestPart(core, request, step, length');
      RequestAdvances(core, stream, step, length', step', want');
      tooLong := want' + length' > MAX_ADU;
    }
  }

  /**
   * The loop of modbus_slave_wait: its result is the frame length, or the error that ended it, after at
   * most three calls of modbus_want_read, none of which reaches beyond the largest unit.
   */
  method AssembleRequest(smb: SmallModbus, request: array<byte>, waitTime: int)
    returns (ret: int, ghost taken: nat, ghost failed: bool, ghost rounds: nat, ghost reach: nat)
    requires request.Length == MAX_ADU
    modifies smb.port`rx, smb.port`plan, request
    ensures rounds <= 3 && reach <= MAX_ADU
    ensures ReadOff(smb.port, request, taken)
    ensures failed ==> CutShort(smb.port, taken, ret) && ScanRequest(smb.core, old(smb.port.Stream())[..taken]) == More
    ensures !failed ==>
              match ScanRequest(smb.core, old(smb.port.Stream()))
              case More => false
              case TooLong(seen) => taken == seen && ret == MODBUS_FAIL
              case Whole(n) => taken == n && ret == n
    ensures 0 <= ret ==> ret <= |old(smb.port.Stream())| && ret <= MAX_ADU
                         && request[..ret] == old(smb.port.Stream())[..ret]
  {
    hide Overwrite, Arrivals, Rest, Excused;
    ghost var stream, was, start := smb.port.Stream(), request[..], smb.port.plan;
    NothingYet(smb.port, request, 0);
    var core := smb.core;
    var wait := waitTime;
    var step: nat := 0;
    var want: nat := core.Header() + 1;
    var length: nat := 0;
    taken, failed, rounds, reach := 0, false, 0, 0;

    while want != 0
      invariant RequestProgress(core, stream, step, length, want)
      invariant SoFar(smb.port, request, 0, stream, was, length) && Rest(smb.port.plan, start)
      invariant rounds <= step + (if want == 0 then 1 else 0) && reach <= length
      decreases 2 - step, want
    {
      rounds, reach := rounds + 1, length + want;
      var n, tooLong;
      n, taken := ReadOnward(smb.port, request, length, want, wait, stream, was, start);
      if n < MODBUS_OK {
        failed := true;
        RequestCutShort(core, stream, step, length, want, taken);
        return n, taken, failed, rounds, reach;
      }
      ReadSoFar(smb.port, request, stream, was, length + want);
      step, length, want, tooLong := RequestStep(core, request, stream, step, length, want);
      if tooLong {
        return MODBUS_FAIL, taken, failed, rounds, reach;
      }
      wait := smb.timeoutByte * want;
    }
    ReadSoFar(smb.port, request, stream, was, length);
    return length, length, failed, rounds, reach;
  }

  /** modbus_slave_wait */
  method SlaveWait(smb: SmallModbus, request: array<byte>, waitTime: int)
    returns (ret: int, ghost taken: nat, ghost failed: bool)
    requires request.Length == MAX_ADU
    modifies smb.port`rx, smb.port`plan, request, smb`transferId
    ensures ReadOff(smb.port, request, taken)
    ensures failed ==> CutShort(smb.port, taken, ret) && ScanRequest(smb.core, old(smb.port.Stream())[..taken]) == More
    ensures !failed ==> RequestFramed(smb.core, smb.slaveAddr, old(smb.port.Stream()), taken, ret)
    ensures Reliable(old(smb.port.plan)) ==> (failed <==> ScanRequest(smb.core, old(smb.port.Stream())) == More)
    ensures Reliable(old(smb.port.plan)) && failed ==> ret == MODBUS_TIMEOUT && taken == |old(smb.port.Stream())|
    ensures smb.transferId == if !failed && ScanRequest(smb.core, old(smb.port.Stream())).Whole?
              then RememberedId(smb.core, smb.slaveAddr, old(smb.transferId), old(smb.port.Stream())[..taken])
              else old(smb.transferId)
  {
    hide RequestVerdict, RememberedId, Overwrite, Arrivals, Rest;
    ghost var rounds, reach: nat;
    ret, taken, failed, rounds, reach := AssembleRequest(smb, request, waitTime);
    if ret < MODBUS_OK {
      return;
    }
    var tid;
    ret, tid := CheckWaitRequest(smb.core, smb.slaveAddr, smb.transferId, request, ret);
    smb.transferId := tid;
  }

  // ---------- The master's framer ----------

  /** The switch of modbus_wait_confirm, taken when everything asked for has been read. */
  method NextReplyPart(core: Core, response: array<byte>, position: nat, length: nat)
    returns (position': nat, want: nat)
    requires core.Header() < length <= response.Length && position <= 1
    requires position == 0 ==> length == core.Header() + 1
    requires position == 1 ==> length == core.Header() + 1 + ReplyFixed(response[core.Header()])
    ensures position == 0 ==> position' == 1 && want == ReplyFixed(response[core.Header()])
    ensures position == 1 ==>
              position' == 2 && want == ReplyCounted(core.Header(), response[..length]) + core.Checksum()
  {
    var function_ := response[core.Header()];
    if position == 0 {
      if function_ == READ_COILS || function_ == READ_INPUTS || function_ == READ_HOLDING ||
         function_ == READ_INPUT_REGISTERS {
        want := 1;
      } else if function_ == WRITE_COIL || function_ == WRITE_REGISTER || function_ == WRITE_COILS ||
                function_ == WRITE_REGISTERS {
        want := 4;
      } else if function_ == MASK_WRITE_REGISTER {
        want := 6;
      } else {
        want := 1;
      }
      position' := 1;
    } else {
      if function_ == READ_COILS || function_ == READ_INPUTS || function_ == READ_HOLDING ||
         function_ == READ_INPUT_REGISTERS {
        want := response[core.Header() + 1];
      } else {
        want := 0;
      }
      want := want + core.Checksum();
      position' := 2;
    }
  }

  /** What the reply framer knows between two reads. */
  ghost predicate ReplyProgress(core: Core, stream: seq<byte>, position: nat, length: nat, want: nat) {
    var h := core.Header();
    && length <= |stream|
    && position <= 2
    && (position == 0 ==> length == 0 && want == h + 1)
    && (position == 1 ==> length == h + 1 && want == ReplyFixed(stream[h]))
    && (position == 2 ==> h < length && ReplyRest(core, stream, length, want))
  }

  ghost predicate ReplyRest(core: Core, stream: seq<byte>, length: nat, want: nat)
    requires core.Header() < length <= |stream|
  {
    var h := core.Header();
    && length + want <= MAX_ADU
    && length >= h + 1 + ReplyFixed(stream[h])
    && length + want == h + 1 + ReplyFixed(stream[h]) + ReplyCounted(h, stream) + core.Checksum()
  }

  lemma ReplyCutShort(core: Core, stream: seq<byte>, position: nat, length: nat, want: nat, k: nat)
    requires ReplyProgress(core, stream, position, length, want)
    requires length <= k < length + want && k <= |stream|
    ensures ScanReply(core, stream[..k]) == More
  {
  }

  lemma ReplyAdvances(core: Core, stream: seq<byte>, position: nat, length: nat, position': nat, want: nat)
    requires core.Header() < length <= |stream| && position <= 1
    requires position == 0 ==> length == core.Header() + 1
    requires position == 1 ==> length == core.Header() + 1 + ReplyFixed(stream[core.Header()])
    requires position == 0 ==> position' == 1 && want == ReplyFixed(stream[core.Header()])
    requires position == 1 ==> position' == 2 && want == ReplyCounted(core.Header(), stream[..length]) + core.Checksum()
    ensures length + want <= MAX_ADU ==> ReplyProgress(core, stream, position', length, want)
    ensures length + want > MAX_ADU ==> ScanReply(core, stream) == TooLong(length)
  {
  }

  /** What the loop does when everything asked for has been read: on to the next part, or give up. */
  method ReplyStep(core: Core, response: array<byte>, ghost stream: seq<byte>, position: nat, length: nat, want: nat)
    returns (position': nat, length': nat, want': nat, tooLong: bool)
    requires response.Length == MAX_ADU && ReplyProgress(core, stream, position, length, want) && 0 < want
    requires length + want <= MAX_ADU && length + want <= |stream|
    requires response[..length + want] == stream[..length + want]
    ensures length' == length + want
    ensures tooLong ==> ScanReply(core, stream) == TooLong(length')
    ensures !tooLong ==> ReplyProgress(core, stream, position', length', want')
    ensures !tooLong ==> position < position' || (position' == position && want' == 0)
  {
    position', length', want', tooLong := position, length + want, 0, false;
    if position <= 1 {
      position', want' := NextReplyPart(core, response, position, length');
      ReplyAdvances(core, stream, position, length', position', want');
      tooLong := position' == 2 && want' + length' > MAX_ADU;
    }
  }

  /**
   * The loop of modbus_wait_confirm: its result is the frame length, or the error that ended it, after at
   * most three calls of modbus_want_read, none of which reaches beyond the largest unit.
   */
  method AssembleReply(smb: SmallModbus, response: array<byte>)
    returns (ret: int, ghost taken: nat, ghost failed: bool, ghost rounds: nat, ghost reach: nat)
    requires response.Length == MAX_ADU
    modifies smb.port`rx, smb.port`plan, response
    ensures rounds <= 3 && reach <= MAX_ADU
    ensures ReadOff(smb.port, response, taken)
    ensures failed ==> CutShort(smb.port, taken, ret) && ScanReply(smb.core, old(smb.port.Stream())[..taken]) == More
    ensures !failed ==>
              match ScanReply(smb.core, old(smb.port.Stream()))
              case More => false
              case TooLong(seen) => taken == seen && ret == MODBUS_FAIL_CONFIRM
              case Whole(n) => taken == n && ret == n
    ensures 0 <= ret ==> ret <= |old(smb.port.Stream())| && ret <= MAX_ADU
                         && response[..ret] == old(smb.port.Stream())[..ret]
  {
    hide Overwrite, Arrivals, Rest, Excused;
    ghost var stream, was, start := smb.port.Stream(), response[..], smb.port.plan;
    NothingYet(smb.port, response, 0);
    var core := smb.core;
    var wait := smb.timeoutFrame;
    var position: nat := 0;
    var want: nat := core.Header() + 1;
    var length: nat := 0;
    taken, failed, rounds, reach := 0, false, 0, 0;

    while want != 0
      invariant ReplyProgress(core, stream, position, length, want)
      invariant SoFar(smb.port, response, 0, stream, was, length) && Rest(smb.port.plan, start)
      invariant rounds <= position + (if want == 0 then 1 else 0) && reach <= length
      decreases 2 - position, want
    {
      rounds, reach := rounds + 1, length + want;
      var n, tooLong;
      n, taken := ReadOnward(smb.port, response, length, want, wait, stream, was, start);
      if n < MODBUS_OK {
        failed := true;
        ReplyCutShort(core, stream, position, length, want, taken);
        return n, taken, failed, rounds, reach;
      }
      ReadSoFar(smb.port, response, stream, was, length + want);
      position, length, want, tooLong := ReplyStep(core, response, stream, position, length, want);
      if tooLong {
        return MODBUS_FAIL_CONFIRM, taken, failed, rounds, reach;
      }
      wait := smb.timeoutByte * want;
    }
    ReadSoFar(smb.port, response, stream, was, length);
    return length, length, failed, rounds, reach;
  }

  /** What modbus_wait_confirm has done with a stream that was not cut short by the port. */
  ghost predicate ReplyFramed(core: Core, slaveAddr: byte, tid: word, stream: seq<byte>, taken: nat, ret: int) {
    match ScanReply(core, stream)
    case More => false
    case TooLong(seen) => taken == seen && ret == MODBUS_FAIL_CONFIRM
    case Whole(n) => taken == n && ret == ResponseVerdict(core, slaveAddr, tid, stream[..n])
  }

  /** modbus_wait_confirm */
  method WaitConfirm(smb: SmallModbus, response: array<byte>)
    returns (ret: int, ghost taken: nat, ghost failed: bool)
    requires response.Length == MAX_ADU
    modifies smb.port`rx, smb.port`plan, response
    ensures ReadOff(smb.port, response, taken)
    ensures failed ==> CutShort(smb.port, taken, ret) && ScanReply(smb.core, old(smb.port.Stream())[..taken]) == More
    ensures !failed ==> ReplyFramed(smb.core, smb.slaveAddr, smb.transferId, old(smb.port.Stream()), taken, ret)
    ensures Reliable(old(smb.port.plan)) ==> (failed <==> ScanReply(smb.core, old(smb.port.Stream())) == More)
    ensures Reliable(old(smb.port.plan)) && failed ==> ret == MODBUS_TIMEOUT && taken == |old(smb.port.Stream())|
  {
    ghost var rounds, reach: nat;
    ret, taken, failed, rounds, reach := AssembleReply(smb, response);
    if ret < MODBUS_OK {
      return;
    }
    assert response[..ret] == old(smb.port.Stream())[..ret];
    ret := CheckWaitResponse(smb.core, smb.slaveAddr, smb.transferId, response, ret);
  }
}
