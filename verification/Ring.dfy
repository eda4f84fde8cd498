// The mirror-bit ring buffer of src/small_modbus_port_win32.c as a bounded first-in first-out queue.

module Ring {
  import opened Bytes
  import opened Codec

  datatype Status = Empty | Full | HalfFull

  function Min(a: nat, b: nat): nat { if a <= b then a else b }

  /** The two cursors of the ring: an index and a mirror bit each. */
  datatype Cursors = Cursors(readMirror: bool, read: nat, writeMirror: bool, write: nat) {
    /** Equal mirrors mean the reader is not ahead of the writer, different ones that it is not behind. */
    predicate Valid(size: nat) {
      && read < size && write < size
      && (readMirror == writeMirror ==> read <= write)
      && (readMirror != writeMirror ==> write <= read)
    }
  }

  /** The bytes held, oldest first. */
  function Held(pool: seq<byte>, c: Cursors): (q: seq<byte>)
    requires c.Valid(|pool|)
    ensures |q| <= |pool|
  {
    if c.readMirror == c.writeMirror then pool[c.read..c.write] else pool[c.read..] + pool[..c.write]
  }

  lemma GrowSlice(pool: seq<byte>, from: nat, at: nat, data: seq<byte>)
    requires from <= at && at + |data| <= |pool|
    ensures Overwrite(pool, at, data)[from..at + |data|] == pool[from..at] + data
  {
  }

  lemma TailKept(pool: seq<byte>, at: nat, data: seq<byte>, from: nat)
    requires at + |data| <= from <= |pool|
    ensures Overwrite(pool, at, data)[from..] == pool[from..]
  {
  }

  lemma PutBeforeEnd(pool: seq<byte>, c: Cursors, data: seq<byte>)
    requires c.Valid(|pool|) && |Held(pool, c)| + |data| <= |pool| && c.write + |data| < |pool|
    ensures c.(write := c.write + |data|).Valid(|pool|)
    ensures Held(Overwrite(pool, c.write, data), c.(write := c.write + |data|)) == Held(pool, c) + data
  {
    hide Overwrite;
    var after := Overwrite(pool, c.write, data);
    if c.readMirror == c.writeMirror {
      GrowSlice(pool, c.read, c.write, data);
    } else {
      GrowSlice(pool, 0, c.write, data);
      TailKept(pool, c.write, data, c.read);
      assert after[0..c.write + |data|] == after[..c.write + |data|] && pool[0..c.write] == pool[..c.write];
      assert pool[c.read..] + (pool[..c.write] + data) == pool[c.read..] + pool[..c.write] + data;
    }
  }

  lemma HeldAcross(pool: seq<byte>, c: Cursors, a: seq<byte>, b: seq<byte>, after: seq<byte>)
    requires c.Valid(|pool|) && c.readMirror == c.writeMirror && |b| <= c.read && c.write + |a| == |pool| == |after|
    requires after[..|b|] == b && after[c.read..] == pool[c.read..c.write] + a
    ensures c.(write := |b|, writeMirror := !c.writeMirror).Valid(|pool|)
    ensures Held(after, c.(write := |b|, writeMirror := !c.writeMirror)) == Held(pool, c) + a + b
  {
  }

  /** The writer can only reach the end of the pool while it is in the reader's mirror. */
  lemma PutAcrossEnd(pool: seq<byte>, c: Cursors, a: seq<byte>, b: seq<byte>, after: seq<byte>)
    requires c.Valid(|pool|) && |Held(pool, c)| + |a| + |b| <= |pool| && c.write + |a| == |pool|
    requires after == Overwrite(Overwrite(pool, c.write, a), 0, b)
    ensures c.(write := |b|, writeMirror := !c.writeMirror).Valid(|pool|)
    ensures Held(after, c.(write := |b|, writeMirror := !c.writeMirror)) == Held(pool, c) + a + b
  {
    assert c.readMirror == c.writeMirror && |b| <= c.read;
    assert after[..|b|] == b;
    assert after[c.read..] == pool[c.read..c.write] + a;
    HeldAcross(pool, c, a, b, after);
  }

  lemma GetBeforeEnd(pool: seq<byte>, c: Cursors, n: nat)
    requires c.Valid(|pool|) && n <= |Held(pool, c)| && c.read + n < |pool|
    ensures c.(read := c.read + n).Valid(|pool|)
    ensures Held(pool, c)[..n] == pool[c.read..c.read + n]
    ensures Held(pool, c.(read := c.read + n)) == Held(pool, c)[n..]
  {
  }

  lemma GetAcrossEnd(pool: seq<byte>, c: Cursors, n: nat)
    requires c.Valid(|pool|) && n <= |Held(pool, c)| && c.read + n >= |pool|
    ensures var b := c.read + n - |pool|;
            && c.(read := b, readMirror := !c.readMirror).Valid(|pool|)
            && Held(pool, c)[..n] == pool[c.read..] + pool[..b]
            && Held(pool, c.(read := b, readMirror := !c.readMirror)) == Held(pool, c)[n..]
  {
  }

  lemma OverwriteTwice(s: seq<byte>, at: nat, a: seq<byte>, b: seq<byte>)
    requires at + |a| + |b| <= |s|
    ensures Overwrite(Overwrite(s, at, a), at + |a|, b) == Overwrite(s, at, a + b)
  {
  }

  lemma ReadAcrossEnd(pool: seq<byte>, c: Cursors, n: nat, before: seq<byte>, at: nat, after: seq<byte>)
    requires c.Valid(|pool|) && n <= |Held(pool, c)| && c.read + n >= |pool| && at + n <= |before|
    requires var first := |pool| - c.read;
             after == Overwrite(Overwrite(before, at, pool[c.read..]), at + first, pool[..n - first])
    ensures after == Overwrite(before, at, Held(pool, c)[..n])
  {
    GetAcrossEnd(pool, c, n);
    OverwriteTwice(before, at, pool[c.read..], pool[..c.read + n - |pool|]);
  }

  method Memcpy(dst: array<byte>, d: nat, src: array<byte>, s: nat, n: nat)
    requires d + n <= dst.Length && s + n <= src.Length && dst != src
    modifies dst
    ensures dst[..] == Overwrite(old(dst[..]), d, src[s..s + n])
  {
    ghost var before := dst[..];
    forall i | 0 <= i < n { dst[d + i] := src[s + i]; }
    IsOverwrite(before, d, src[s..s + n], dst[..]);
  }

  class RingBuffer {
    const pool: array<byte>
    const size: nat
    var cursors: Cursors

    ghost predicate Valid()
      reads this
    {
      0 < size <= 0x7FFF && pool.Length == size && cursors.Valid(size)
    }

    ghost function Contents(): (q: seq<byte>)
      requires Valid()
      reads this, pool
    {
      Held(pool[..], cursors)
    }

    /** win32device_ringbuffer_init */
    constructor (pool: array<byte>)
      requires 0 < pool.Length <= 0x7FFF
      ensures Valid() && this.pool == pool && size == pool.Length && Contents() == []
    {
      this.pool, size, cursors := pool, pool.Length, Cursors(false, 0, false, 0);
    }

    /** win32device_ringbuffer_status */
    method GetStatus() returns (s: Status)
      requires Valid()
      ensures s == Empty <==> Contents() == []
      ensures s == Full <==> |Contents()| == size
    {
      if cursors.read == cursors.write {
        s := if cursors.readMirror == cursors.writeMirror then Empty else Full;
      } else {
        s := HalfFull;
      }
    }

    /** win32device_ringbuffer_data_len */
    method DataLen() returns (n: nat)
      requires Valid()
      ensures n == |Contents()|
    {
      var s := GetStatus();
      match s
      case Empty => n := 0;
      case Full => n := size;
      case HalfFull =>
        n := if cursors.write > cursors.read then cursors.write - cursors.read
             else size - (cursors.read - cursors.write);
    }

    /** The block fits before the end of the pool. */
    method PutStraight(ptr: array<byte>, n: nat)
      requires Valid() && n <= ptr.Length && ptr != pool && |Contents()| + n <= size && cursors.write + n < size
      modifies this`cursors, pool
      ensures Valid() && Contents() == old(Contents()) + ptr[..n]
    {
      hide Overwrite, Held;
      PutBeforeEnd(pool[..], cursors, ptr[..n]);
      Memcpy(pool, cursors.write, ptr, 0, n);
      cursors := cursors.(write := cursors.write + n);
    }

    /** The block reaches the end of the pool and goes on at its start, in the other mirror. */
    method PutWrapped(ptr: array<byte>, n: nat)
      requires Valid() && n <= ptr.Length && ptr != pool && |Contents()| + n <= size && cursors.write + n >= size
      modifies this`cursors, pool
      ensures Valid() && Contents() == old(Contents()) + ptr[..n]
    {
      hide Overwrite, Held;
      var first := size - cursors.write;
      ghost var start, c, was := pool[..], cursors, Contents();
      Memcpy(pool, cursors.write, ptr, 0, first);
      Memcpy(pool, 0, ptr, first, n - first);
      cursors := cursors.(writeMirror := !cursors.writeMirror, write := n - first);
      PutAcrossEnd(start, c, ptr[..first], ptr[first..n], pool[..]);
      assert was + ptr[..first] + ptr[first..n] == was + ptr[..n];
    }

    /** win32device_ringbuffer_put: as much of the block as there is space for goes to the end. */
    method Put(ptr: array<byte>, length: nat) returns (n: nat)
      requires Valid() && length <= ptr.Length && ptr != pool
      modifies this`cursors, pool
      ensures Valid() && n == Min(size - |old(Contents())|, length)
      ensures Contents() == old(Contents()) + ptr[..n]
    {
      var used := DataLen();
      var space := size - used;
      if space == 0 {
        return 0;
      }
      n := length;
      if space < n {
        n := space;
      }
      if size - cursors.write > n {
        PutStraight(ptr, n);
      } else {
        PutWrapped(ptr, n);
      }
    }

    method GetStraight(ptr: array<byte>, at: nat, n: nat)
      requires Valid() && at + n <= ptr.Length && ptr != pool && n <= |Contents()| && cursors.read + n < size
      modifies this`cursors, ptr
      ensures Valid() && Contents() == old(Contents())[n..]
      ensures ptr[..] == Overwrite(old(ptr[..]), at, old(Contents())[..n])
    {
      hide Overwrite, Held;
      GetBeforeEnd(pool[..], cursors, n);
      Memcpy(ptr, at, pool, cursors.read, n);
      cursors := cursors.(read := cursors.read + n);
    }

    method CopyAcross(ptr: array<byte>, at: nat, n: nat)
      requires Valid() && at + n <= ptr.Length && ptr != pool && n <= size && cursors.read + n >= size
      modifies ptr
      ensures var first := size - cursors.read;
              ptr[..] == Overwrite(Overwrite(old(ptr[..]), at, pool[cursors.read..]), at + first, pool[..n - first])
    {
      hide Overwrite;
      var first := size - cursors.read;
      ghost var before := ptr[..];
      assert pool[cursors.read..cursors.read + first] == pool[cursors.read..];
      assert pool[0..n - first] == pool[..n - first];
      Memcpy(ptr, at, pool, cursors.read, first);
      assert ptr[..] == Overwrite(before, at, pool[cursors.read..]);
      Memcpy(ptr, at + first, pool, 0, n - first);
    }

    method GetWrapped(ptr: array<byte>, at: nat, n: nat)
      requires Valid() && at + n <= ptr.Length && ptr != pool && n <= |Contents()| && cursors.read + n >= size
      modifies this`cursors, ptr
      ensures Valid() && Contents() == old(Contents())[n..]
      ensures ptr[..] == Overwrite(old(ptr[..]), at, old(Contents())[..n])
    {
      hide Overwrite, Held;
      ghost var before, start, c := ptr[..], pool[..], cursors;
      CopyAcross(ptr, at, n);
      assert pool[..] == start && pool[c.read..] == start[c.read..]
             && pool[..n - (size - c.read)] == start[..n - (size - c.read)];
      GetAcrossEnd(start, c, n);
      ReadAcrossEnd(start, c, n, before, at, ptr[..]);
      cursors := cursors.(readMirror := !cursors.readMirror, read := n - (size - cursors.read));
    }

    /** win32device_ringbuffer_get: as much as there is of what was asked for comes off the front. */
    method Get(ptr: array<byte>, at: nat, length: nat) returns (n: nat)
      requires Valid() && at + length <= ptr.Length && ptr != pool
      modifies this`cursors, ptr
      ensures Valid() && n == Min(|old(Contents())|, length)
      ensures Contents() == old(Contents())[n..]
      ensures ptr[..] == Overwrite(old(ptr[..]), at, old(Contents())[..n])
    {
      var used := DataLen();
      if used == 0 {
        return 0;
      }
      n := length;
      if used < n {
        n := used;
      }
      if size - cursors.read > n {
        GetStraight(ptr, at, n);
      } else {
        GetWrapped(ptr, at, n);
      }
    }

    /** win32device_ringbuffer_reset */
    method Reset()
      requires Valid()
      modifies this
      ensures Valid() && Contents() == []
    {
      cursors := Cursors(false, 0, false, 0);
    }
  }

  // ---------- Runs ----------

  datatype Op = Put(data: seq<byte>) | Get(length: nat) | Reset

  /** A bounded queue, what it has delivered and what it has accepted since the last reset. */
  datatype Fifo = Fifo(queue: seq<byte>, delivered: seq<byte>, accepted: seq<byte>)

  function Step(capacity: nat, f: Fifo, op: Op): Fifo
    requires |f.queue| <= capacity
  {
    match op
    case Put(data) =>
      var n := Min(capacity - |f.queue|, |data|);
      Fifo(f.queue + data[..n], f.delivered, f.accepted + data[..n])
    case Get(length) =>
      var n := Min(|f.queue|, length);
      Fifo(f.queue[n..], f.delivered + f.queue[..n], f.accepted)
    case Reset => Fifo([], [], [])
  }

  function Steps(capacity: nat, f: Fifo, ops: seq<Op>): (g: Fifo)
    requires |f.queue| <= capacity
    ensures |g.queue| <= capacity
    decreases |ops|
  {
    if ops == [] then f else Steps(capacity, Step(capacity, f, ops[0]), ops[1..])
  }

  /** Nothing is lost, duplicated or reordered: what was accepted is what was delivered and what is held. */
  lemma {:induction false} Conservation(capacity: nat, f: Fifo, ops: seq<Op>)
    requires |f.queue| <= capacity && f.accepted == f.delivered + f.queue
    ensures var g := Steps(capacity, f, ops); g.accepted == g.delivered + g.queue
    decreases |ops|
  {
    if ops != [] {
      var g := Step(capacity, f, ops[0]);
      assert g.accepted == g.delivered + g.queue;
      Conservation(capacity, g, ops[1..]);
    }
  }

  /** Any run of put, get and reset on the ring is that run on the queue. */
  method RunOps(rb: RingBuffer, ops: seq<Op>) returns (delivered: seq<byte>)
    requires rb.Valid()
    modifies rb, rb.pool
    ensures rb.Valid()
    ensures var g := Steps(rb.size, Fifo(old(rb.Contents()), [], old(rb.Contents())), ops);
            rb.Contents() == g.queue && delivered == g.delivered
  {
    ghost var f := Fifo(rb.Contents(), [], rb.Contents());
    ghost var start := f;
    delivered := [];
    for i := 0 to |ops|
      invariant rb.Valid() && |f.queue| <= rb.size && |start.queue| <= rb.size
      invariant rb.Contents() == f.queue && delivered == f.delivered
      invariant Steps(rb.size, f, ops[i..]) == Steps(rb.size, start, ops)
    {
      assert ops[i..][1..] == ops[i + 1..];
      match ops[i] {
        case Put(data) =>
          var buffer := new byte[|data|](k requires 0 <= k < |data| => data[k]);
          assert buffer[..] == data;
          var n := rb.Put(buffer, |data|);
          assert buffer[..n] == data[..n];
        case Get(length) =>
          var buffer := new byte[length](_ => 0);
          var n := rb.Get(buffer, 0, length);
          assert buffer[..n] == f.queue[..n];
          delivered := delivered + buffer[..n];
        case Reset =>
          rb.Reset();
          delivered := [];
      }
      f := Step(rb.size, f, ops[i]);
    }
  }
}
