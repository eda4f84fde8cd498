// A port as src/small_modbus_base.c sees it: bytes arrive in order, in pieces of any size, and a read
// may return fewer bytes than are there. What each later wait will do is fixed by a finite plan. A read
// that returns nothing while bytes are on their way is one before the wait at which they arrive.

module Ports {
  import opened Bytes
  import opened Codec
  import Cores

  type Negative = x: int | x < 0 witness -1

  /** The outcome of one wait: some bytes have arrived, or the port reports an error. */
  datatype Event = Arrival(bytes: seq<byte>) | Failure(code: Negative)

  /** All bytes that are still to arrive. */
  function Arrivals(plan: seq<Event>): seq<byte>
    decreases |plan|
  {
    if plan == [] then [] else (if plan[0].Arrival? then plan[0].bytes else []) + Arrivals(plan[1..])
  }

  /** What is left of a plan some way through it. */
  predicate Rest(plan: seq<Event>, start: seq<Event>) {
    |plan| <= |start| && plan == start[|start| - |plan|..]
  }

  /** Why a port gave up: a failure was planned, or everything had been read and nothing more came. */
  predicate Excused(plan: seq<Event>, rc: int, exhausted: bool) {
    rc < 0 && (Failure(rc) in plan || (exhausted && rc == Cores.MODBUS_TIMEOUT))
  }

  lemma RestOfRest(plan: seq<Event>, middle: seq<Event>, start: seq<Event>)
    requires Rest(plan, middle) && Rest(middle, start)
    ensures Rest(plan, start)
  {
  }

  lemma ExcusedBefore(plan: seq<Event>, start: seq<Event>, rc: int, exhausted: bool)
    requires Rest(plan, start) && Excused(plan, rc, exhausted)
    ensures Excused(start, rc, exhausted)
  {
    if Failure(rc) in plan {
      var i :| 0 <= i < |plan| && plan[i] == Failure(rc);
      assert start[|start| - |plan| + i] == Failure(rc);
    }
  }

  /** No wait fails while there is something to come. */
  predicate Reliable(plan: seq<Event>) {
    forall e :: e in plan ==> e.Arrival?
  }

  lemma RestOfReliable(plan: seq<Event>, start: seq<Event>)
    requires Rest(plan, start) && Reliable(start)
    ensures Reliable(plan)
  {
  }

  lemma FrontOf(a: seq<byte>, b: seq<byte>, n: nat)
    requires n <= |a|
    ensures (a + b)[..n] == a[..n] && (a + b)[n..] == a[n..] + b
  {
  }

  class Port {
    var rx: seq<byte>
    var plan: seq<Event>
    var sent: seq<seq<byte>>

    constructor (plan: seq<Event>)
      ensures this.rx == [] && this.plan == plan && sent == []
    {
      rx, this.plan, sent := [], plan, [];
    }

    /** The bytes not yet read, in order of arrival. */
    ghost function Stream(): seq<byte>
      reads this
    {
      rx + Arrivals(plan)
    }

    /** port->read: some of the bytes that are there, up to the number requested. */
    method Read(buff: array<byte>, at: nat, length: nat) returns (n: nat)
      requires at + length <= buff.Length
      modifies this`rx, buff
      ensures n <= length && n <= |old(Stream())|
      ensures old(rx) != [] && length > 0 ==> n > 0
      ensures old(rx) == [] ==> rx == []
      ensures Stream() == old(Stream())[n..]
      ensures buff[..] == Overwrite(old(buff[..]), at, old(Stream())[..n])
    {
      hide Arrivals, Overwrite;
      var most := if length <= |rx| then length else |rx|;
      var least := if most == 0 then 0 else 1;
      assert least <= most <= most;
      n :| least <= n <= most;
      ghost var was := buff[..];
      forall i | 0 <= i < n { buff[at + i] := rx[i]; }
      IsOverwrite(was, at, rx[..n], buff[..]);
      FrontOf(rx, Arrivals(plan), n);
      rx := rx[n..];
    }

    /** port->wait: the next planned event; with none left, a timeout unless there is something to read. */
    method Wait(timeout: int) returns (rc: int)
      modifies this`rx, this`plan
      ensures Stream() == old(Stream())
      ensures old(plan) != [] ==> plan == old(plan)[1..]
                                  && rc == (if old(plan)[0].Arrival? then 1 else old(plan)[0].code)
      ensures old(plan) == [] ==> plan == [] && rx == old(rx) && rc == (if rx == [] then Cores.MODBUS_TIMEOUT else 1)
    {
      if plan == [] {
        return if rx == [] then Cores.MODBUS_TIMEOUT else 1;
      }
      match plan[0] {
        case Arrival(bytes) =>
          rx := rx + bytes;
          rc := 1;
        case Failure(code) =>
          rc := code;
      }
      plan := plan[1..];
    }

    /** port->write of the first `length` octets. */
    method Write(data: array<byte>, length: nat) returns (rc: int)
      requires length <= data.Length
      modifies this`sent
      ensures sent == old(sent) + [data[..length]] && rc == length
    {
      sent := sent + [data[..length]];
      rc := length;
    }
  }

  /** Two reads one after the other store what one longer read would. */
  lemma ReadOn(was: seq<byte>, at: nat, stream: seq<byte>, r: nat, n: nat, now: seq<byte>)
    requires r + n <= |stream| && at + r + n <= |was|
    requires now == Overwrite(Overwrite(was, at, stream[..r]), at + r, stream[r..][..n])
    ensures now == Overwrite(was, at, stream[..r + n]) && stream[r..][n..] == stream[r + n..]
  {
    assert stream[..r] + stream[r..][..n] == stream[..r + n];
  }

  /** The first k octets of a stream are gone from the port and stand in the buffer from `at` on. */
  ghost predicate SoFar(port: Port, buff: array<byte>, at: nat, stream: seq<byte>, was: seq<byte>, k: nat)
    reads port, buff
  {
    && k <= |stream| && at + k <= |was|
    && port.Stream() == stream[k..]
    && buff[..] == Overwrite(was, at, stream[..k])
  }

  /** One read of the loop of modbus_want_read. */
  method ReadSome(port: Port, buff: array<byte>, at: nat, readLen: nat, len: nat, ghost stream: seq<byte>,
                  ghost was: seq<byte>)
    returns (total: nat)
    requires SoFar(port, buff, at, stream, was, readLen) && readLen <= len && at + len <= buff.Length
    modifies port`rx, buff
    ensures SoFar(port, buff, at, stream, was, total) && readLen <= total <= len
    ensures old(port.rx) != [] && readLen < len ==> readLen < total
    ensures old(port.rx) == [] ==> port.rx == []
  {
    var n := port.Read(buff, at + readLen, len - readLen);
    ReadOn(was, at, stream, readLen, n, buff[..]);
    total := readLen + n;
  }

  lemma NothingYet(port: Port, buff: array<byte>, at: nat)
    requires at <= buff.Length
    ensures SoFar(port, buff, at, port.Stream(), buff[..], 0) && Rest(port.plan, port.plan)
  {
  }

  lemma ReadSoFar(port: Port, buff: array<byte>, stream: seq<byte>, was: seq<byte>, k: nat)
    requires SoFar(port, buff, 0, stream, was, k)
    ensures k <= buff.Length && buff[..k] == stream[..k]
  {
    assert buff[..][..k] == stream[..k];
  }

  /**
   * modbus_want_read. Either all `len` bytes were read, or fewer were and a wait failed, as planned or
   * because the stream had ended; whatever was read came off the front of the stream and went to the
   * front of the buffer, however it was cut up.
   */
  method WantRead(port: Port, buff: array<byte>, at: nat, len: nat, waitTime: int) returns (rc: int, ghost taken: nat)
    requires at + len <= buff.Length
    modifies port`rx, port`plan, buff
    ensures taken <= |old(port.Stream())| && port.Stream() == old(port.Stream())[taken..]
    ensures taken <= len && buff[..] == Overwrite(old(buff[..]), at, old(port.Stream())[..taken])
    ensures rc >= 0 ==> rc == len && taken == len
    ensures rc < 0 ==> taken < len && Excused(old(port.plan), rc, taken == |old(port.Stream())|)
    ensures Rest(port.plan, old(port.plan))
  {
    hide Overwrite;
    ghost var stream, was, start := port.Stream(), buff[..], port.plan;
    NothingYet(port, buff, at);
    var readLen: nat := 0;
    while true
      invariant SoFar(port, buff, at, stream, was, readLen) && readLen <= len
      invariant Rest(port.plan, start)
      decreases |port.plan|, len - readLen
    {
      readLen := ReadSome(port, buff, at, readLen, len, stream, was);
      if readLen >= len {
        return readLen, readLen;
      }
      rc := port.Wait(waitTime);
      if rc < Cores.MODBUS_OK {
        return rc, readLen;
      }
    }
  }
}
