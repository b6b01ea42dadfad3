// The boot option functions of lib/ipmi_chassis.c with their sticky global flag, proved
// to do what BootProtocol says.
module BootSession {
  import opened Bytes
  import opened BootMailbox
  import opened BootProtocol
  import opened BootCommands

  class Chassis {
    const device: Device
    var useProgress: bool
    var log: seq<Event>

    ghost function State(): Session
      reads this
    {
      Session(useProgress, log)
    }

    constructor (device: Device)
      ensures this.device == device && State() == Session(true, [])
    {
      this.device := device;
      useProgress, log := true, [];
    }

    // One request and its answer.
    method SetBootparam(cmd: Command) returns (rc: answer)
      modifies this
      ensures State() == Send(device, old(State()), cmd) && rc == Rc(State())
    {
      rc := device(|log|);
      log := log + [Event(cmd, rc)];
    }

    method SetInProgress(progress: ProgressState)
      modifies this
      ensures State() == SetProgress(device, old(State()), progress)
    {
      if !useProgress {
        return;
      }
      var rc := SetBootparam(Progress(progress));
      if rc != 0 && progress == ProgressState.SetInProgress {
        useProgress := false;
      }
    }

    method SetValidFlags(setFlag: byte, clrFlag: byte) returns (rc: int)
      modifies this
      ensures (State(), rc) == SetBootvalid(device, old(State()), setFlag, clrFlag)
    {
      hide ApplyFlags, SetProgress;
      SetInProgress(ProgressState.SetInProgress);
      rc := SetBootparam(Ack(BIOS_POST_ACK));
      if rc == 0 {
        var bootvalid := SetBootparam(GetValid);
        if bootvalid < 0 {
          rc := bootvalid;
        } else {
          rc := SetBootparam(SetValid(ApplyFlags(bootvalid, setFlag, clrFlag)));
          if rc == 0 {
            SetInProgress(CommitWrite);
          }
        }
      }
      SetInProgress(SetComplete);
    }

    method SetDevice(arg: Option<string>, iflags: Option<seq<byte>>) returns (rc: int)
      requires iflags.Some? ==> |iflags.value| == 5
      modifies this
      ensures (State(), rc) == SetBootdev(device, old(State()), arg, iflags)
      ensures FlagsFit(old(State()), State(), rc, arg, iflags)
    {
      FlagsSentFit(device, State(), arg, iflags);
      hide DeviceBits, OrByte, SetProgress, FlagsFit;
      SetInProgress(ProgressState.SetInProgress);
      rc := SetBootparam(Ack(BIOS_POST_ACK));
      if rc >= 0 {
        var flags := if iflags.Some? then iflags.value else [0, 0, 0, 0, 0];
        var bits := DeviceBits(arg);
        if bits.None? {
          rc := -1;
        } else {
          flags := flags[1 := OrByte(flags[1], bits.value)];
          flags := flags[0 := OrByte(flags[0], 0x80)];
          DeviceFlagsIs(iflags, bits.value, flags);
          rc := SetBootparam(BootFlags(flags));
          if rc == 0 {
            SetInProgress(CommitWrite);
          }
        }
      }
      SetInProgress(SetComplete);
    }

    // Fill the request buffer for one block: selector, IANA number in block 0, data. The
    // result is the number of bytes to send.
    static method FillBlock(mbox: array<byte>, block: int, iana: int, payload: seq<byte>, offset: nat) returns (used: nat, blocksize: nat)
      requires mbox.Length == 1 + BLOCK_SZ && offset <= |payload|
      modifies mbox
      ensures blocksize == Min(|payload| - offset, Capacity(block))
      ensures 1 <= used <= mbox.Length && mbox[0] == block % 0x100
      ensures mbox[1..used] == (if block == 0 then Iana24(iana) else []) + payload[offset..offset + blocksize]
    {
      mbox[0] := block % 0x100;
      var data, maxblocksize := 1, BLOCK_SZ;
      if block == 0 {
        data, maxblocksize := 1 + IANA_SZ, BLOCK0_SZ;
        var b := Iana24(iana);
        mbox[1], mbox[2], mbox[3] := b[0], b[1], b[2];
      }
      blocksize := if |payload| - offset > maxblocksize then maxblocksize else |payload| - offset;
      forall i | 0 <= i < blocksize {
        mbox[data + i] := payload[offset + i];
      }
      used := mbox.Length - (maxblocksize - blocksize);
    }

    // chassis_set_bootmailbox
    method SetMailbox(block: int, iana: Option<int>, data: MailboxData) returns (rc: int)
      modifies this
      ensures (State(), rc) == SetBootmailbox(device, old(State()), block, iana, data)
    {
      hide SetProgress, Split, WriteBlocks, BlocksFor;
      rc := -1;
      if iana.None? || Payload(data).None? {
        return;
      }
      var payload := Payload(data).value;
      var blocks, first := 1, block;
      if block < 0 {
        blocks, first := BlocksFor(|payload|), 0;
      }
      if blocks > MAX_BLOCKS {
        return;
      }
      SetInProgress(ProgressState.SetInProgress);
      rc := WriteMailbox(payload, first, blocks, iana.value);
      PlannedIsNotEmpty(block, iana, data);
      if rc == 0 {
        SetInProgress(CommitWrite);
        rc := SetBootparam(Ack(BIOS_POST_ACK + OS_LOADER_ACK));
      }
      SetInProgress(SetComplete);
    }

    // The loop over the blocks, up to the first failed write.
    method WriteMailbox(payload: seq<byte>, first: int, blocks: nat, iana: int) returns (rc: int)
      modifies this
      ensures (State(), rc) == WriteBlocks(device, old(State()), Split(payload, first, blocks, iana))
    {
      hide Split, WriteBlocks, Iana24, Capacity, SetProgress;
      rc := 0;
      var bindex, block, mbox := 0, first, new byte[1 + BLOCK_SZ](_ => 0);
      var offset: nat := 0;
      ghost var target := WriteBlocks(device, State(), Split(payload, first, blocks, iana));
      assert payload[0..] == payload;
      while offset < |payload| && bindex < blocks
        invariant 0 <= bindex <= blocks && offset <= |payload| && rc == 0
        invariant target == WriteBlocks(device, State(), Split(payload[offset..], block, blocks - bindex, iana))
        decreases blocks - bindex
      {
        var used, blocksize := FillBlock(mbox, block, iana, payload, offset);
        var b := Block(mbox[0], mbox[1..used]);
        SplitStep(payload, offset, block, blocks - bindex, iana);
        WriteStep(device, State(), b, Split(payload[offset + blocksize..], block + 1, blocks - bindex - 1, iana));
        rc := SetBootparam(Mailbox(b));
        if rc != 0 {
          return;
        }
        offset := offset + blocksize;
        bindex, block := bindex + 1, block + 1;
      }
      SplitEnds(device, State(), payload[offset..], block, blocks - bindex, iana);
    }
  }

  lemma DeviceFlagsIs(iflags: Option<seq<byte>>, bits: byte, flags: seq<byte>)
    requires iflags.Some? ==> |iflags.value| == 5
    requires var f := if iflags.Some? then iflags.value else [0, 0, 0, 0, 0];
      flags == f[1 := OrByte(f[1], bits)][0 := OrByte(f[0], 0x80)]
    ensures flags == DeviceFlags(iflags, bits)
  {
  }

  lemma SplitEnds(d: Device, s: Session, rest: seq<byte>, block: int, n: nat, iana: int)
    requires rest == [] || n == 0
    ensures WriteBlocks(d, s, Split(rest, block, n, iana)) == (s, 0)
  {
  }

  // The next block of a split.
  lemma SplitStep(payload: seq<byte>, offset: nat, block: int, n: nat, iana: int)
    requires offset < |payload| && n > 0
    ensures var k := Min(|payload| - offset, Capacity(block));
      Split(payload[offset..], block, n, iana)
      == [Block(block % 0x100, (if block == 0 then Iana24(iana) else []) + payload[offset..offset + k])]
         + Split(payload[offset + k..], block + 1, n - 1, iana)
  {
    var k := Min(|payload| - offset, Capacity(block));
    assert payload[offset..][..k] == payload[offset..offset + k];
    assert payload[offset..][k..] == payload[offset + k..];
  }

  lemma WriteStep(d: Device, s: Session, b: Block, rest: seq<Block>)
    ensures var s1 := Send(d, s, Mailbox(b));
      WriteBlocks(d, s, [b] + rest) == if Rc(s1) != 0 then (s1, Rc(s1)) else WriteBlocks(d, s1, rest)
  {
    assert ([b] + rest)[1..] == rest;
  }
}
