// What the standards and the library's headers prescribe, in numbers and independently of the code:
// quantities, lengths, layouts. Conformance compares the model of the code with it.

module Standard {
  import opened Bytes

  /** Sections 6.1-6.6, 6.11 and 6.12 of the MODBUS Application Protocol V1.1b3: quantities by function. */
  predicate QuantityAllowed(f: byte, n: word) {
    || (f in {1, 2} && 1 <= n <= 2000)
    || (f in {3, 4} && 1 <= n <= 125)
    || f in {5, 6}
    || (f == 15 && 1 <= n <= 1968)
    || (f == 16 && 1 <= n <= 123)
  }

  /** Octets n packed bits take. */
  function Packed(n: nat): nat { (n + 7) / 8 }

  /** Octets of host memory a write takes its data from. */
  function WriteSize(f: byte, n: word): nat {
    if f == 5 then 1 else if f == 6 then 2 else if f == 15 then Packed(n) else if f == 16 then 2 * n else 0
  }

  /** The function codes the slave puts to its application. */
  predicate Supported(f: byte) { f in {1, 2, 3, 4, 5, 6, 15, 16} }

  // ---------- Lengths, counted from the function code on ----------

  /** Octets of a request that tell how long it is. */
  function RequestNeeds(f: byte): nat {
    if f <= 6 then 5 else if f in {15, 16} then 6 else if f == 0x16 then 7 else if f == 0x17 then 10 else 1
  }

  /** Its length: of the codes with counted data 15, 16 and 0x17, of the others by code alone. */
  function RequestLength(p: seq<byte>): nat
    requires p != [] && RequestNeeds(p[0]) <= |p|
  {
    if p[0] in {15, 16} then 6 + p[5] else if p[0] == 0x17 then 10 + p[9] else RequestNeeds(p[0])
  }

  function ReplyNeeds(f: byte): nat {
    if f in {5, 6, 15, 16} then 5 else if f == 0x16 then 7 else 2
  }

  function ReplyLength(p: seq<byte>): nat
    requires p != [] && ReplyNeeds(p[0]) <= |p|
  {
    if p[0] in {1, 2, 3, 4} then 2 + p[1] else ReplyNeeds(p[0])
  }

  // ---------- Units ----------

  /** The MBAP header of section 3.1.3 of the MODBUS Messaging on TCP/IP Implementation Guide V1.0b. */
  predicate MbapSound(frame: seq<byte>)
    requires |frame| >= 7
  {
    frame[2] == 0 && frame[3] == 0 && Number(frame[4], frame[5]) == |frame| - 6
  }

  /** A 16-bit number on the wire, high octet first. */
  function Big(n: int): (s: seq<byte>)
    ensures |s| == 2
  {
    [n / 256 % 256, n % 256]
  }

  /** The number two octets spell. */
  function Number(high: byte, low: byte): word { 256 * high + low }

  /** The reply to a request for the slave's identity: run indicator on, and the letters SMODBUS. */
  function Identity(unit: byte): seq<byte> {
    [0x11, 9, unit, 0xFF, 0x53, 0x4D, 0x4F, 0x44, 0x42, 0x55, 0x53]
  }
}
