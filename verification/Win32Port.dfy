// The win32 serial port of src/small_modbus_port_win32.c: ReadFile delivers blocks, the ring buffer
// holds what has not been read yet. Below, modbus_want_read runs over it.

module Win32Port {
  import opened Bytes
  import opened Codec
  import Cores
  import opened Ring
  import P = Ports

  const MODBUS_ERROR_READ: int := -8
  const RING_SIZE: nat := 256
  const PY_BUF_SIZE: nat := 512

  /** What one ReadFile does: store a block, possibly empty when it times out, or fail. */
  datatype Block = Block(bytes: seq<byte>) | Broken

  predicate Readable(blocks: seq<Block>, limit: nat) {
    forall i :: 0 <= i < |blocks| ==> blocks[i].Block? ==> |blocks[i].bytes| <= limit
  }

  function Incoming(blocks: seq<Block>): seq<byte>
    decreases |blocks|
  {
    if blocks == [] then [] else (if blocks[0].Block? then blocks[0].bytes else []) + Incoming(blocks[1..])
  }

  // ---------- What of it can be read ----------

  /** One wait on an empty ring, as the event of a port: what does not fit the ring is lost. */
  function EventOf(b: Block): P.Event {
    match b
    case Broken => P.Failure(MODBUS_ERROR_READ)
    case Block(bytes) =>
      if bytes == [] then P.Failure(Cores.MODBUS_TIMEOUT) else P.Arrival(bytes[..Min(RING_SIZE, |bytes|)])
  }

  function PlanOf(blocks: seq<Block>): (plan: seq<P.Event>)
    ensures |plan| == |blocks|
  {
    seq(|blocks|, i requires 0 <= i < |blocks| => EventOf(blocks[i]))
  }

  lemma PlanTail(blocks: seq<Block>)
    requires blocks != []
    ensures PlanOf(blocks)[0] == EventOf(blocks[0]) && PlanOf(blocks)[1..] == PlanOf(blocks[1..])
  {
  }

  lemma {:induction false} LostLength(blocks: seq<Block>)
    ensures |P.Arrivals(PlanOf(blocks))| <= |Incoming(blocks)|
    ensures |P.Arrivals(PlanOf(blocks))| == |Incoming(blocks)| ==> Readable(blocks, RING_SIZE)
    decreases |blocks|
  {
    if blocks != [] {
      PlanTail(blocks);
      LostLength(blocks[1..]);
      if |P.Arrivals(PlanOf(blocks))| == |Incoming(blocks)| {
        forall i | 0 <= i < |blocks| && blocks[i].Block? ensures |blocks[i].bytes| <= RING_SIZE {
          assert i > 0 ==> blocks[i] == blocks[1..][i - 1];
        }
      }
    }
  }

  lemma {:induction false} NothingLost(blocks: seq<Block>)
    requires Readable(blocks, RING_SIZE)
    ensures P.Arrivals(PlanOf(blocks)) == Incoming(blocks)
    decreases |blocks|
  {
    if blocks != [] {
      PlanTail(blocks);
      NothingLost(blocks[1..]);
    }
  }

  /** Everything the line delivers can be read exactly when no ReadFile returns more than the ring holds. */
  lemma LosslessExactly(blocks: seq<Block>)
    ensures P.Arrivals(PlanOf(blocks)) == Incoming(blocks) <==> Readable(blocks, 256)
  {
    LostLength(blocks);
    if Readable(blocks, RING_SIZE) {
      NothingLost(blocks);
    }
  }

  /** A ReadFile may return up to 512 octets at once; of more than 256 only the first 256 are kept. */
  lemma LargeBlockCut(bytes: seq<byte>)
    requires 256 < |bytes| <= 512
    ensures Readable([Block(bytes)], PY_BUF_SIZE)
    ensures P.Arrivals(PlanOf([Block(bytes)])) == bytes[..256] && Incoming([Block(bytes)]) == bytes
  {
    PlanTail([Block(bytes)]);
    assert P.Arrivals(PlanOf([])) == [];
  }

  class Device {
    const ring: RingBuffer
    const readBuff: array<byte>
    var readBuffLen: nat
    var blocks: seq<Block>

    ghost predicate Valid()
      reads this, ring
    {
      && ring.Valid() && ring.size == RING_SIZE && readBuff != ring.pool
      && readBuff.Length == PY_BUF_SIZE && readBuffLen == 0 && Readable(blocks, PY_BUF_SIZE)
    }

    /** Every byte still to be read, in order of arrival. */
    ghost function Pending(): seq<byte>
      requires Valid()
      reads this, ring, ring.pool
    {
      ring.Contents() + Incoming(blocks)
    }

    /** The bytes that will be read of these, if every wait finds the ring empty. */
    ghost function Stream(): seq<byte>
      requires Valid()
      reads this, ring, ring.pool
    {
      ring.Contents() + P.Arrivals(PlanOf(blocks))
    }

    /** modbus_port_win32device_init */
    constructor (blocks: seq<Block>)
      requires Readable(blocks, PY_BUF_SIZE)
      ensures Valid() && fresh(ring) && fresh(ring.pool) && fresh(readBuff)
      ensures ring.Contents() == [] && this.blocks == blocks
    {
      var pool := new byte[RING_SIZE];
      ring := new RingBuffer(pool);
      readBuff := new byte[PY_BUF_SIZE];
      readBuffLen := 0;
      this.blocks := blocks;
    }

    /** _modbus_win32device_read */
    method Read(data: array<byte>, at: nat, length: nat) returns (n: nat)
      requires Valid() && at + length <= data.Length && data != ring.pool && data != readBuff
      modifies ring, data
      ensures Valid() && blocks == old(blocks)
      ensures n == Min(|old(ring.Contents())|, length) && ring.Contents() == old(ring.Contents())[n..]
      ensures data[..] == Overwrite(old(data[..]), at, old(ring.Contents())[..n])
    {
      n := ring.DataLen();
      if n > length {
        n := length;
      }
      if n > 0 {
        var got := ring.Get(data, at, n);
      }
    }

    /** The ReadFile of one wait: the block goes to the port's own read buffer. */
    method ReadFile() returns (ok: bool, n: nat)
      requires Valid()
      modifies this`blocks, readBuff
      ensures Valid()
      ensures old(blocks) == [] ==> ok && n == 0 && blocks == []
      ensures old(blocks) != [] ==> blocks == old(blocks)[1..] && ok == old(blocks)[0].Block?
      ensures old(blocks) != [] && ok ==>
                n == |old(blocks)[0].bytes| <= PY_BUF_SIZE && readBuff[..n] == old(blocks)[0].bytes
    {
      if blocks == [] {
        return true, 0;
      }
      match blocks[0] {
        case Broken =>
          ok, n := false, 0;
        case Block(bytes) =>
          forall i | 0 <= i < |bytes| { readBuff[i] := bytes[i]; }
          ok, n := true, |bytes|;
          assert readBuff[..n] == bytes;
      }
      blocks := blocks[1..];
    }

    /** _modbus_win32device_wait: what does not fit the ring is dropped. */
    method Wait(timeout: int) returns (rc: int)
      requires Valid()
      modifies this`blocks, readBuff, ring, ring.pool
      ensures Valid()
      ensures old(blocks) == [] ==>
                rc == Cores.MODBUS_TIMEOUT && blocks == [] && ring.Contents() == old(ring.Contents())
      ensures old(blocks) != [] ==> blocks == old(blocks)[1..]
      ensures old(blocks) != [] && old(blocks)[0].Broken? ==>
                rc == MODBUS_ERROR_READ && ring.Contents() == old(ring.Contents())
      ensures old(blocks) != [] && old(blocks)[0].Block? ==>
                var bytes := old(blocks)[0].bytes;
                && rc == (if bytes == [] then Cores.MODBUS_TIMEOUT else 1)
                && ring.Contents() == old(ring.Contents()) + bytes[..Min(RING_SIZE - |old(ring.Contents())|, |bytes|)]
    {
      if readBuffLen > 0 {
        return 1;
      }
      var ok, n := ReadFile();
      if !ok {
        return MODBUS_ERROR_READ;
      }
      if n == 0 {
        return Cores.MODBUS_TIMEOUT;
      }
      ghost var bytes := readBuff[..n];
      var stored := ring.Put(readBuff, n);
      assert readBuff[..stored] == bytes[..stored];
      rc := 1;
    }
  }

  /** Blocks with something in them. */
  predicate Steady(blocks: seq<Block>) {
    forall i :: 0 <= i < |blocks| ==> blocks[i].Block? && blocks[i].bytes != []
  }

  lemma SteadyIsReliable(blocks: seq<Block>)
    ensures Steady(blocks) <==> P.Reliable(PlanOf(blocks))
  {
    if P.Reliable(PlanOf(blocks)) {
      forall i | 0 <= i < |blocks| ensures blocks[i].Block? && blocks[i].bytes != [] {
        assert PlanOf(blocks)[i] in PlanOf(blocks);
      }
    }
  }

  /** The first k bytes of the stream are in the buffer, the others are still to come. */
  ghost predicate SoFar(dev: Device, buff: array<byte>, at: nat, stream: seq<byte>, was: seq<byte>, k: nat)
    reads dev, dev.ring, dev.ring.pool, buff
  {
    && dev.Valid() && k <= |stream| && at + k <= |was|
    && dev.Stream() == stream[k..]
    && buff[..] == Overwrite(was, at, stream[..k])
  }

  /** One read of the loop. If it does not complete the request it empties the ring. */
  method ReadSome(dev: Device, buff: array<byte>, at: nat, readLen: nat, len: nat,
                  ghost stream: seq<byte>, ghost was: seq<byte>)
    returns (total: nat)
    requires buff != dev.ring.pool && buff != dev.readBuff
    requires SoFar(dev, buff, at, stream, was, readLen) && readLen <= len && at + len <= buff.Length
    modifies dev.ring, buff
    ensures dev.blocks == old(dev.blocks) && SoFar(dev, buff, at, stream, was, total) && readLen <= total <= len
    ensures total < len ==> dev.ring.Contents() == []
    ensures old(dev.ring.Contents()) != [] && readLen < len ==> readLen < total
  {
    hide Overwrite, PlanOf, P.Arrivals, Held;
    ghost var held, later := dev.ring.Contents(), P.Arrivals(PlanOf(dev.blocks));
    var n := dev.Read(buff, at + readLen, len - readLen);
    P.FrontOf(held, later, n);
    P.ReadOn(was, at, stream, readLen, n, buff[..]);
    total := readLen + n;
  }

  lemma StreamOnEmpty(blocks: seq<Block>)
    requires blocks != []
    ensures P.Arrivals(PlanOf(blocks)) ==
            (if EventOf(blocks[0]).Arrival? then EventOf(blocks[0]).bytes else []) + P.Arrivals(PlanOf(blocks[1..]))
  {
    PlanTail(blocks);
  }

  lemma CutNothing(bytes: seq<byte>, later: seq<byte>)
    ensures bytes[..Min(RING_SIZE, |bytes|)] + later == bytes + later <==> |bytes| <= RING_SIZE
  {
    if |bytes| > RING_SIZE {
      assert |bytes[..RING_SIZE] + later| < |bytes + later|;
    }
  }

  /**
   * A wait with an empty ring is the wait of a port with that plan. The line's bytes are all kept exactly
   * when the block it brings is no larger than the ring.
   */
  method WaitOnEmpty(dev: Device, waitTime: int) returns (rc: int)
    requires dev.Valid() && dev.ring.Contents() == []
    modifies dev`blocks, dev.readBuff, dev.ring, dev.ring.pool
    ensures dev.Valid() && dev.Stream() == old(dev.Stream())
    ensures old(dev.blocks) == [] ==> dev.blocks == [] && rc == Cores.MODBUS_TIMEOUT && dev.ring.Contents() == []
    ensures old(dev.blocks) != [] ==>
              var e := EventOf(old(dev.blocks)[0]);
              && dev.blocks == old(dev.blocks)[1..] && rc == (if e.Arrival? then 1 else e.code)
              && (rc >= 0 ==> dev.ring.Contents() != [])
    ensures dev.Pending() == old(dev.Pending()) <==>
            (old(dev.blocks) != [] && old(dev.blocks)[0].Block? ==> |old(dev.blocks)[0].bytes| <= RING_SIZE)
  {
    hide PlanOf, P.Arrivals;
    ghost var before := dev.blocks;
    rc := dev.Wait(waitTime);
    if before != [] {
      StreamOnEmpty(before);
      if before[0].Block? {
        CutNothing(before[0].bytes, Incoming(dev.blocks));
      }
    }
  }

  lemma NothingYet(dev: Device, buff: array<byte>, at: nat)
    requires dev.Valid() && at <= buff.Length
    ensures SoFar(dev, buff, at, dev.Stream(), buff[..], 0)
    ensures P.Rest(PlanOf(dev.blocks), PlanOf(dev.blocks))
  {
  }

  lemma RestOfPlan(blocks: seq<Block>, start: seq<P.Event>)
    requires blocks != [] && P.Rest(PlanOf(blocks), start)
    ensures P.Rest(PlanOf(blocks[1..]), start)
  {
    PlanTail(blocks);
  }

  /** A wait that fails does so as planned, or because nothing was left. */
  lemma FailedWait(blocks: seq<Block>, start: seq<P.Event>, rc: int, exhausted: bool)
    requires P.Rest(PlanOf(blocks), start)
    requires if blocks == [] then exhausted && rc == Cores.MODBUS_TIMEOUT
             else EventOf(blocks[0]).Failure? && rc == EventOf(blocks[0]).code
    ensures P.Excused(start, rc, exhausted)
  {
    if blocks != [] {
      assert PlanOf(blocks)[0] in PlanOf(blocks);
    }
    P.ExcusedBefore(PlanOf(blocks), start, rc, exhausted);
  }

  lemma ReliableSucceeds(blocks: seq<Block>, rc: int, exhausted: bool)
    requires Steady(blocks) && P.Excused(PlanOf(blocks), rc, exhausted)
    ensures exhausted
  {
    SteadyIsReliable(blocks);
  }

  /**
   * modbus_want_read over this port. It waits only when the ring is empty, so it keeps the contract of
   * Ports.WantRead for a port with this stream and this plan: it returns exactly the next `len` bytes of
   * the stream, after at most `len` waits, or fails because a wait failed. The stream is all the line
   * delivers if and only if no block exceeds the ring.
   */
  method WantRead(dev: Device, buff: array<byte>, at: nat, len: nat, waitTime: int)
    returns (rc: int, ghost taken: nat, ghost waits: nat)
    requires dev.Valid() && at + len <= buff.Length && buff != dev.ring.pool && buff != dev.readBuff
    modifies dev`blocks, dev.readBuff, dev.ring, dev.ring.pool, buff
    ensures dev.Valid()
    ensures taken <= |old(dev.Stream())| && dev.Stream() == old(dev.Stream())[taken..]
    ensures taken <= len && buff[..] == Overwrite(old(buff[..]), at, old(dev.Stream())[..taken])
    ensures rc >= 0 ==> rc == len && taken == len && waits <= len
    ensures rc < 0 ==> taken < len && P.Excused(PlanOf(old(dev.blocks)), rc, taken == |old(dev.Stream())|)
    ensures P.Rest(PlanOf(dev.blocks), PlanOf(old(dev.blocks)))
    ensures Steady(old(dev.blocks)) && len <= |old(dev.Stream())| ==> rc >= 0
    ensures old(dev.Stream()) == old(dev.Pending()) <==> Readable(old(dev.blocks), RING_SIZE)
  {
    hide Overwrite, PlanOf, P.Arrivals, P.Rest, P.Excused, Steady, Held, Readable, Incoming;
    ghost var stream, was, blocks, start := dev.Stream(), buff[..], dev.blocks, PlanOf(dev.blocks);
    NothingYet(dev, buff, at);
    SameTails(dev.ring.Contents(), P.Arrivals(PlanOf(dev.blocks)), Incoming(dev.blocks));
    LosslessExactly(dev.blocks);
    var readLen: nat := 0;
    waits := 0;
    while true
      invariant SoFar(dev, buff, at, stream, was, readLen) && readLen <= len
      invariant P.Rest(PlanOf(dev.blocks), start)
      invariant waits > 0 ==> readLen < len && dev.ring.Contents() != [] && waits <= readLen + 1
      decreases |dev.blocks|
    {
      readLen := ReadSome(dev, buff, at, readLen, len, stream, was);
      taken := readLen;
      if readLen >= len {
        return readLen, taken, waits;
      }
      ghost var left := dev.blocks;
      rc := WaitOnEmpty(dev, waitTime);
      if left != [] {
        RestOfPlan(left, start);
      }
      if rc < Cores.MODBUS_OK {
        NoneLeft(dev, stream, readLen);
        FailedWait(left, start, rc, taken == |stream|);
        if Steady(blocks) {
          ReliableSucceeds(blocks, rc, taken == |stream|);
        }
        return rc, taken, waits;
      }
      waits := waits + 1;
    }
  }

  lemma SameTails(a: seq<byte>, b: seq<byte>, c: seq<byte>)
    ensures a + b == a + c <==> b == c
  {
    if a + b == a + c {
      assert (a + b)[|a|..] == b && (a + c)[|a|..] == c;
    }
  }

  lemma NoneLeft(dev: Device, stream: seq<byte>, k: nat)
    requires dev.Valid() && k <= |stream| && dev.Stream() == stream[k..]
    ensures dev.blocks == [] && dev.ring.Contents() == [] ==> k == |stream|
  {
  }
}
