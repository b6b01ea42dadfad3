// ipmi_fru_set_field_string_rebuild as a whole: the old image is read from the device, edited
// and written back, and what the device then holds.
module FruEdit {
  import opened Bytes
  import opened FruBlocs
  import opened FruDevice
  import opened FruWrite
  import opened FruWriteArea
  import opened FruLayout
  import opened FruMove
  import opened FruRebuild
  import opened FruReadRun
  import opened FruRead
  import opened FruShortRead
  import opened FruEditor
  import opened FruRoundTrip

  // How many bytes behind the new buffer the write-back may read.
  const WRITE_OVERREAD := 7

  // The write-back is refused before it starts: an odd size on a word device, or an
  // interface that carries too little.
  predicate WriteBackRefused(words: bool, newSize: nat, max: byte, maxRequest: nat) {
    (words && newSize % 2 == 1) || InitialMax(max, maxRequest, words).None?
  }

  // The start of the write-back.
  function StartState(words: bool, max: byte, maxRequest: nat, mem: seq<byte>): State
    requires InitialMax(max, maxRequest, words).Some?
  {
    State(0, 0, InitialMax(max, maxRequest, words).value, 0, mem)
  }

  // The write-back was complete, met no protected bloc, and was of the whole new FRU.
  ghost predicate WroteAll(ed: Edit, c: Config, t: Trace)
    requires ed.f < |ed.sec.fields|
  {
    t.final.dst == c.finish && NoneProtected(t.log) && NewSize(ed) < 0x1_0000
  }

  // What a write-back by the run t leaves on a device that held `before`, if no bloc end
  // is harmful: the edited section exactly when each of its bytes arrived, and then it is
  // the section at byte `at`, and every field from byte `first` on decodes as edited. If
  // all of it was written, the section did arrive, and all other areas are as in the
  // image, with its header.
  ghost predicate Outcome(ed: Edit, img0: seq<byte>, before: seq<byte>, c: Config, max: nat, t: Trace, at: nat, first: nat)
    requires EditOk(ed) && |img0| == Room(ed)
  {
    var arrived := Arrived(ed, NewImage(ed, img0), before, t.log);
    NeverShifts(c, 0, max) ==>
      && (SectionReplaced(ed, t.final.mem) <==> arrived)
      && (arrived ==> EditedAt(ed, t.final.mem, at, first))
      && (WroteAll(ed, c, t) ==>
            arrived && ed.size <= |t.final.mem| && OthersKept(ed, t.final.mem, NewHeader(ed, img0)))
  }

  lemma WriteBackOutcome(ed: Edit, img0: seq<byte>, c: Config, s: State, answers: seq<WriteAnswer>)
    requires EditOk(ed) && |img0| == Room(ed) && ed.size <= |img0| && img0[..ed.size] == ed.orig[..ed.size]
    requires NewImage(ed, img0) <= c.src && c.finish == NewSizeOf(ed) && Inv(c, s) && s.dst == 0 && s.src == 0 && EvenRange(c, 0)
    requires ed.size < 0x1_0000 <= |s.mem|
    ensures Outcome(ed, img0, s.mem, c, s.max, Run(c, s, answers), Ho(ed), Ho(ed) + |ed.sec.prefix|)
  {
    hide EditOk, NewImage, NewHeader, Run, SectionReplaced, NeverShifts, Arrived, NoneProtected, DecodesAsEdited, EditedAt, OthersKept;
    Basics(ed);
    var t := Run(c, s, answers);
    if NeverShifts(c, 0, s.max) {
      SectionFitsDevice(ed);
      EditArrivesIff(ed, img0, c, s, answers);
      if WroteAll(ed, c, t) {
        EditReachesDevice(ed, img0, c, s, answers, 0);
      }
      if SectionReplaced(ed, t.final.mem) {
        ReplacedIsEditedAt(ed, t.final.mem);
      }
    }
  }

  // A section has at most 255 blocks and starts below block 256, and an edit adds no more
  // than 63 bytes.
  lemma SectionFitsDevice(ed: Edit)
    requires EditOk(ed)
    ensures Ho(ed) + SectionLength(ed) + 8 * Cnt(ed) < 0x1_0000
  {
    hide SectionAt, AreasOk;
    EditIsShiftable(ed);
    ResizeArithmetic(ed.sec.pad - Change(ed));
  }

  // The steps behind the read. oldBuf holds the image read from the device, followed by
  // what is behind it in memory; newBuf is uninitialised and followed by `behind`. The
  // result is -1 when the editor fails or the write-back is refused, and 1 otherwise, also
  // when the write-back stopped early: write_fru_area then returns 0, which is not an
  // error here.
  method EditAndWriteBack(dev: WriteDevice, words: bool, max: byte, id: byte, oldBuf: array<byte>, newBuf: array<byte>, behind: seq<byte>,
      size: nat, h: seq<byte>, fType: char, fIndex: nat, s: seq<byte>,
      reply: Option<seq<byte>>, read: RecordReader, maxRequest: nat, ghost ed: Edit)
    returns (rc: int, ghost newSize: nat, ghost c: Config, ghost t: Trace)
    requires oldBuf != newBuf && oldBuf != dev.mem && newBuf != dev.mem && size <= newBuf.Length && size <= oldBuf.Length
    requires dev.words == words && dev.served <= |dev.script| && size < 0x1_0000 <= dev.mem.Length
    requires |behind| >= WRITE_OVERREAD && (reply.Some? ==> |reply.value| == 8)
    requires |h| == 8
    requires fType == 'c' || fType == 'b' || fType == 'p' ==>
      && ed == Edit(oldBuf[..], size, h, ed.e, ed.sec, fIndex, s) && EditOk(ed) && newBuf.Length == Room(ed)
      && Ho(ed) == 8 * h[if fType == 'c' then 2 else if fType == 'b' then 3 else 4] as int
      && |ed.sec.prefix| == if fType == 'b' then 6 else 3
    modifies oldBuf, newBuf, dev, dev.mem
    ensures rc == -1 || rc == 1
    ensures fType == 'c' || fType == 'b' || fType == 'p' ==> newSize == NewSizeOf(ed)
    ensures rc == -1 <==>
      !(fType == 'c' || fType == 'b' || fType == 'p') || ed.sec.fields[ed.f].payload == [] || WriteBackRefused(words, newSize, max, maxRequest)
    ensures rc == -1 ==> dev.mem[..] == old(dev.mem[..]) && dev.served == old(dev.served)
    ensures rc == 1 ==>
      var at := if fType == 'c' then 8 * h[2] as int else if fType == 'b' then 8 * h[3] as int else 8 * h[4] as int;
      var first := if fType == 'b' then at + 6 else at + 3;
      var img0 := Splice(old(newBuf[..]), 0, old(oldBuf[..size]));
      var s0 := StartState(words, max, maxRequest, old(dev.mem[..]));
      && c.words == words && c.finish == newSize && c.src == NewImage(ed, img0) + behind
      && Inv(c, s0) && t == Run(c, s0, dev.script[old(dev.served)..]) && dev.mem[..] == t.final.mem
      && Outcome(ed, img0, old(dev.mem[..]), c, s0.max, t, at, first)
    ensures rc == 1 && old(dev.served) == |dev.script| ==> dev.mem[..] == old(dev.mem[..])
  {
    hide EditOk, EditedAt, NewImage, NewHeader, SectionReplaced, OthersKept, TailErased, MovedImage, Run, Outcome, InitialMax;
    ghost var img0, before := Splice(newBuf[..], 0, oldBuf[..size]), dev.mem[..];
    c, t := Config(words, 0, [], []), Trace(State(0, 0, 0, 0, []), []);
    var sizeOfNew, header;
    rc, sizeOfNew, header := SetFieldStringRebuild(oldBuf, newBuf, size, h, fType, fIndex, s, ed);
    newSize := 0;
    if fType == 'c' || fType == 'b' || fType == 'p' {
      Basics(ed);
      newSize := NewSizeOf(ed);
    }
    if rc == -1 {
      return;
    }
    SourceLongEnough(ed, sizeOfNew);
    rc, c, t := WriteBack(dev, words, max, id, newBuf, behind, sizeOfNew, reply, read, maxRequest);
    if rc == 1 {
      assert img0[..size] == ed.orig[..size];
      WriteBackOutcome(ed, img0, c, StartState(words, max, maxRequest, before), dev.script[old(dev.served)..]);
    }
  }

  // How far reading the old image comes.
  ghost function ReadOfOld(rdev: ReadDevice, fru: FruInfo, maxResponse: nat): (n: nat)
    requires rdev.served <= |rdev.script| && maxResponse >= 1
    reads rdev, fru
    ensures n <= fru.size
  {
    BytesRead(fru.access, fru.size, rdev.mem, rdev.script, rdev.served, maxResponse, fru.maxReadSize)
  }

  // Step 1: read into a cleared buffer as much as the device gives.
  method ReadOld(rdev: ReadDevice, fru: FruInfo, oldBuf: array<byte>, maxResponse: nat)
    requires rdev.words == fru.access && rdev.served <= |rdev.script| && maxResponse >= 1
    requires fru.size <= oldBuf.Length && fru.size < 0x1_0000 && fru.size <= |rdev.mem|
    modifies rdev, fru`maxReadSize, oldBuf
    ensures oldBuf[..] == OldImage(rdev.mem, old(ReadOfOld(rdev, fru, maxResponse)), fru.size) + old(oldBuf[fru.size..])
  {
    hide ReadCall, ReadPrefix, OldImage;
    ghost var slack, n := oldBuf[fru.size..], ReadOfOld(rdev, fru, maxResponse);
    Memzero(oldBuf, 0, fru.size);
    ghost var cleared := oldBuf[..];
    assert cleared[..fru.size] == Zeros(fru.size) && cleared[fru.size..] == slack;
    var rc; ghost var got, o;
    rc, got, o := ReadFruArea(rdev, fru, 0, fru.size, oldBuf, maxResponse);
    ReadIntoZeros(rdev.mem, cleared, oldBuf[..], n, fru.size);
  }

  // Replace a field on a device, which answers reads as rdev and writes as dev. The edit
  // is one of the image as far as it could be read: the result of the read is ignored.
  // What is then outside the edited section on the device survives a write-back of
  // everything exactly when it was read, or was zero.
  method SetFieldString(rdev: ReadDevice, dev: WriteDevice, fru: FruInfo, id: byte, oldBuf: array<byte>, newBuf: array<byte>, behind: seq<byte>,
      h: seq<byte>, fType: char, fIndex: nat, s: seq<byte>,
      reply: Option<seq<byte>>, read: RecordReader, maxResponse: nat, maxRequest: nat, ghost ed: Edit)
    returns (rc: int, ghost c: Config, ghost t: Trace)
    requires oldBuf != newBuf && oldBuf != dev.mem && newBuf != dev.mem && fru.size <= newBuf.Length && fru.size <= oldBuf.Length
    requires rdev.words == dev.words == fru.access && rdev.mem == dev.mem[..] && fru.size < 0x1_0000 <= dev.mem.Length
    requires rdev.served <= |rdev.script| && dev.served <= |dev.script| && maxResponse >= 1
    requires |behind| >= WRITE_OVERREAD && (reply.Some? ==> |reply.value| == 8)
    requires |h| == 8
    requires fType == 'c' || fType == 'b' || fType == 'p' ==>
      && ed == Edit(OldImage(rdev.mem, ReadOfOld(rdev, fru, maxResponse), fru.size) + oldBuf[fru.size..], fru.size, h,
                    ed.e, ed.sec, fIndex, s)
      && EditOk(ed) && newBuf.Length == Room(ed)
      && Ho(ed) == 8 * h[if fType == 'c' then 2 else if fType == 'b' then 3 else 4] as int
      && |ed.sec.prefix| == if fType == 'b' then 6 else 3
    modifies rdev, fru`maxReadSize, oldBuf, newBuf, dev, dev.mem
    ensures rc == -1 || rc == 1
    ensures rc == -1 <==>
      !(fType == 'c' || fType == 'b' || fType == 'p') || ed.sec.fields[ed.f].payload == [] || WriteBackRefused(fru.access, NewSizeOf(ed), fru.maxWriteSize, maxRequest)
    ensures rc == -1 ==> dev.mem[..] == old(dev.mem[..]) && dev.served == old(dev.served)
    ensures rc == 1 ==>
      var at := if fType == 'c' then 8 * h[2] as int else if fType == 'b' then 8 * h[3] as int else 8 * h[4] as int;
      var first := if fType == 'b' then at + 6 else at + 3;
      var before, n := old(dev.mem[..]), old(ReadOfOld(rdev, fru, maxResponse));
      var img0 := Splice(old(newBuf[..]), 0, OldImage(before, n, fru.size));
      var s0 := StartState(fru.access, fru.maxWriteSize, maxRequest, before);
      && c.words == fru.access && c.finish == NewSizeOf(ed) && c.src == NewImage(ed, img0) + behind
      && Inv(c, s0) && t == Run(c, s0, dev.script[old(dev.served)..]) && dev.mem[..] == t.final.mem
      && Outcome(ed, img0, before, c, s0.max, t, at, first)
      && (NeverShifts(c, 0, s0.max) && WroteAll(ed, c, t) ==> (DeviceKept(ed, before, dev.mem[..]) <==> ReadEnough(ed, before, n)))
  {
    hide Outcome, EditedAt, NewImage, NewHeader, EditOk, SectionReplaced, OthersKept, DeviceKept, ReadEnough, NeverShifts, Run, InitialMax, OldImage, WroteAll, ReadCall, ReadPrefix;
    ghost var before, n := dev.mem[..], ReadOfOld(rdev, fru, maxResponse);
    ReadOld(rdev, fru, oldBuf, maxResponse);
    ghost var newSize;
    rc, newSize, c, t := EditAndWriteBack(dev, fru.access, fru.maxWriteSize, id, oldBuf, newBuf, behind, fru.size, h, fType, fIndex, s,
                                          reply, read, maxRequest, ed);
    if rc == 1 {
      Basics(ed);
      OutcomeKeeps(ed, Splice(old(newBuf[..]), 0, OldImage(before, n, fru.size)), before, n, c, StartState(fru.access, fru.maxWriteSize, maxRequest, before).max, t,
                   Ho(ed), Ho(ed) + |ed.sec.prefix|);
    }
  }

  lemma OutcomeKeeps(ed: Edit, img0: seq<byte>, before: seq<byte>, n: nat, c: Config, max: nat, t: Trace, at: nat, first: nat)
    requires EditOk(ed) && |img0| == Room(ed) && n <= ed.size <= |before| && ed.orig[..ed.size] == OldImage(before, n, ed.size)
    requires ed.size <= |t.final.mem| && Outcome(ed, img0, before, c, max, t, at, first)
    ensures NeverShifts(c, 0, max) && WroteAll(ed, c, t) ==> (DeviceKept(ed, before, t.final.mem) <==> ReadEnough(ed, before, n))
  {
    hide EditOk, NewImage, NewHeader, OthersKept, NeverShifts, WroteAll, DeviceKept, ReadEnough;
    Basics(ed);
    if NeverShifts(c, 0, max) && WroteAll(ed, c, t) {
      KeptIffReadEnough(ed, before, n, t.final.mem, NewHeader(ed, img0));
    }
  }

  lemma SourceLongEnough(ed: Edit, newSize: nat)
    requires EditOk(ed) && newSize == NewSize(ed) % 0x1_0000
    ensures newSize <= Room(ed) + WRITE_OVERREAD
  {
    hide SectionAt, Storable, AreasOk;
    WriteBackFitsIff(ed);
  }

  // The last step, on a copy of fru_info with the new size.
  method WriteBack(dev: WriteDevice, words: bool, max: byte, id: byte, newBuf: array<byte>, behind: seq<byte>, newSize: nat,
      reply: Option<seq<byte>>, read: RecordReader, maxRequest: nat)
    returns (rc: int, ghost c: Config, ghost t: Trace)
    requires newBuf != dev.mem && newSize < 0x1_0000 && newSize <= newBuf.Length + |behind|
    requires dev.words == words && dev.served <= |dev.script| && dev.mem.Length >= 0x1_0000
    requires reply.Some? ==> |reply.value| == 8
    modifies dev, dev.mem
    ensures rc == -1 || rc == 1
    ensures rc == -1 <==> WriteBackRefused(words, newSize, max, maxRequest)
    ensures rc == -1 ==> dev.mem[..] == old(dev.mem[..]) && dev.served == old(dev.served)
    ensures rc == 1 ==>
      var s0 := StartState(words, max, maxRequest, old(dev.mem[..]));
      && c.words == words && c.finish == newSize && c.src == newBuf[..] + behind
      && Inv(c, s0) && t == Run(c, s0, dev.script[old(dev.served)..]) && dev.mem[..] == t.final.mem
      && EvenRange(c, 0)
    ensures rc == 1 && old(dev.served) == |dev.script| ==> dev.mem[..] == old(dev.mem[..])
  {
    hide Run;
    ghost var before := dev.mem[..];
    var n := newBuf.Length;
    var memory := new byte[n + |behind|](i requires 0 <= i < n + |behind| reads newBuf => if i < n then newBuf[i] else behind[i - n]);
    assert memory[..] == newBuf[..] + behind;
    var fru := new FruInfo(newSize, words);
    fru.maxWriteSize := max;
    var written;
    written, c, t := WriteFruArea(dev, fru, id, 0, 0, newSize, memory, reply, read, maxRequest);
    rc := if written < 0 then -1 else 1;
    if rc == 1 && old(dev.served) == |dev.script| {
      assert dev.script[old(dev.served)..] == [];
      SilentRun(c, StartState(words, max, maxRequest, before));
    }
  }
}
