// The context structure small_modbus_t, without its magic numbers, debug level and error code.

module Context {
  import opened Bytes
  import opened Cores
  import opened Ports

  class SmallModbus {
    const core: Core
    const port: Port
    const readBuff: array<byte>
    const writeBuff: array<byte>
    const timeoutFrame: nat
    const timeoutByte: nat
    var slaveAddr: byte
    var transferId: word

    constructor (core: Core, port: Port, slaveAddr: byte, timeoutFrame: nat, timeoutByte: nat)
      ensures Valid() && fresh(readBuff) && fresh(writeBuff)
      ensures this.core == core && this.port == port && this.slaveAddr == slaveAddr && transferId == 0
    {
      this.core, this.port, this.slaveAddr, transferId := core, port, slaveAddr, 0;
      this.timeoutFrame, this.timeoutByte := timeoutFrame, timeoutByte;
      readBuff := new byte[MAX_ADU];
      writeBuff := new byte[MAX_ADU];
    }

    ghost predicate Valid() {
      readBuff.Length == MAX_ADU && writeBuff.Length == MAX_ADU && readBuff != writeBuff
    }
  }
}
