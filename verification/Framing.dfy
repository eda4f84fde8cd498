// How many octets make up a frame, worked out from the octets themselves: the pure counterpart of the
// incremental framers modbus_slave_wait and modbus_wait_confirm.

module Framing {
  import opened Bytes
  import opened Codec
  import opened Cores

  /** The state of a framer that has seen some octets. */
  datatype Scan =
    | More                    // not a whole frame yet
    | Whole(length: nat)      // a frame of this length starts here
    | TooLong(seen: nat)      // given up after so many octets: it would exceed the largest unit

  predicate IsWriteMultiple(f: byte) { f == WRITE_COILS || f == WRITE_REGISTERS }

  predicate IsRead(f: byte) {
    f == READ_COILS || f == READ_INPUTS || f == READ_HOLDING || f == READ_INPUT_REGISTERS
  }

  predicate IsWrite(f: byte) { f == WRITE_COIL || f == WRITE_REGISTER || IsWriteMultiple(f) }

  /** Octets a request has after its function code, before any counted data. */
  function RequestFixed(f: byte): nat {
    if f <= WRITE_REGISTER then 4
    else if IsWriteMultiple(f) then 5
    else if f == MASK_WRITE_REGISTER then 6
    else if f == WRITE_AND_READ_REGISTERS then 9
    else 0
  }

  /** Octets of counted data in a request whose fixed part has been read. */
  function RequestCounted(h: nat, s: seq<byte>): nat
    requires |s| > h && |s| >= h + 1 + RequestFixed(s[h])
  {
    if IsWriteMultiple(s[h]) then s[h + 5]
    else if s[h] == WRITE_AND_READ_REGISTERS then s[h + 9]
    else 0
  }

  function ScanRequest(core: Core, s: seq<byte>): Scan {
    var h := core.Header();
    if |s| <= h then More
    else
      var p := h + 1 + RequestFixed(s[h]);
      if |s| < p then More
      else
        var n := p + RequestCounted(h, s) + core.Checksum();
        if n > MAX_ADU then TooLong(p) else if |s| < n then More else Whole(n)
  }

  /** Octets a reply has after its function code, before any counted data. */
  function ReplyFixed(f: byte): nat {
    if IsRead(f) then 1 else if IsWrite(f) then 4 else if f == MASK_WRITE_REGISTER then 6 else 1
  }

  function ReplyCounted(h: nat, s: seq<byte>): nat
    requires |s| > h && |s| >= h + 1 + ReplyFixed(s[h])
  {
    if IsRead(s[h]) then s[h + 1] else 0
  }

  function ScanReply(core: Core, s: seq<byte>): Scan {
    var h := core.Header();
    if |s| <= h then More
    else
      var p := h + 1 + ReplyFixed(s[h]);
      if |s| < p then More
      else
        var n := p + ReplyCounted(h, s) + core.Checksum();
        if n > MAX_ADU then TooLong(p) else if |s| < n then More else Whole(n)
  }
}
