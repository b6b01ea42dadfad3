// A FRU device behind the Read/Write FRU Data commands (sections 34.2 and 34.3 of IPMI
// v2.0), and what ipmitool remembers about it.
module FruDevice {
  import opened Bytes

  // The unit of area offsets and lengths, also the step by which a request size is reduced
  // as long as it is above the second constant.
  const FRU_BLOCK_SZ := 8
  const FRU_AREA_MAXIMUM_BLOCK_SZ := 32

  // struct fru_info; a request size of 0 means "not chosen yet".
  class FruInfo {
    const size: nat
    const access: bool  // true when the device is addressed by words
    var maxReadSize: byte
    var maxWriteSize: byte

    constructor (size: nat, access: bool)
      ensures this.size == size && this.access == access && maxReadSize == 0 && maxWriteSize == 0
    {
      this.size := size;
      this.access := access;
      maxReadSize, maxWriteSize := 0, 0;
    }
  }

  const CC_OK: byte := 0x00
  const CC_WRITE_PROTECTED: byte := 0x80

  // C7h, C8h and CAh: the request was too big.
  predicate TooBig(cc: byte) {
    cc == 0xc7 || cc == 0xc8 || cc == 0xca
  }

  // The offset bytes of a request, and the byte address the device makes of them.
  function WireOffset(words: bool, off: nat): nat {
    if words then off / 2 else off
  }

  function OffsetLow(words: bool, off: nat): byte {
    WireOffset(words, off) % 0x100
  }

  function OffsetHigh(words: bool, off: nat): byte {
    WireOffset(words, off) / 0x100 % 0x100
  }

  function DeviceAddress(words: bool, low: byte, high: byte): nat {
    var n := low as int + 0x100 * high as int;
    if words then 2 * n else n
  }

  // A word device drops the last bit of the offset.
  function Base(words: bool, off: nat): nat {
    if words then off / 2 * 2 else off
  }

  lemma AddressIsBase(words: bool, off: nat)
    requires off < 0x1_0000
    ensures DeviceAddress(words, OffsetLow(words, off), OffsetHigh(words, off)) == Base(words, off)
    ensures OffsetLow(words, off) as int + 0x100 * OffsetHigh(words, off) as int == if words then off / 2 else off
    ensures Base(words, off) == if words then off - off % 2 else off
  {
  }

  // How a device may answer a write: not at all, or with any completion code.
  datatype WriteAnswer = NoResponse | Ccode(cc: byte)

  // An arbitrary device: any finite script of answers, then silence. It stores the data
  // of exactly the writes it answers with 00h.
  class WriteDevice {
    const words: bool
    const script: seq<WriteAnswer>
    const mem: array<byte>
    var served: nat

    constructor (words: bool, script: seq<WriteAnswer>, mem: array<byte>)
      ensures this.words == words && this.script == script && this.mem == mem && served == 0
    {
      this.words := words;
      this.script := script;
      this.mem := mem;
      served := 0;
    }

    // One Write FRU Data request: device id, offset low, offset high, data.
    method SetFruData(msg: array<byte>, dataLen: nat) returns (rsp: WriteAnswer)
      requires 3 <= dataLen <= msg.Length && msg != mem && served <= |script|
      requires DeviceAddress(words, msg[1], msg[2]) + dataLen - 3 <= mem.Length
      modifies this, mem
      ensures served == Min(old(served) + 1, |script|)
      ensures rsp == if old(served) < |script| then script[old(served)] else NoResponse
      ensures mem[..] == if rsp == Ccode(CC_OK)
                         then Splice(old(mem[..]), DeviceAddress(words, old(msg[1]), old(msg[2])), old(msg[3..dataLen]))
                         else old(mem[..])
    {
      rsp := NoResponse;
      if served < |script| {
        rsp := script[served];
        served := served + 1;
      }
      if rsp == Ccode(CC_OK) {
        Memcpy(mem, DeviceAddress(words, msg[1], msg[2]), msg, 3, dataLen - 3);
      }
    }
  }
}
