// write_fru_area over a real buffer, a linked bloc list and a device, proved to run the
// state machine of FruWrite.
module FruWriteArea {
  import opened Bytes
  import opened FruBlocs
  import opened FruDevice
  import opened FruWrite
  import opened FruWriteLog

  // Where the blocs of a list end.
  function BlocEnds(starts: seq<nat>, size: nat): (ends: seq<nat>)
    ensures |ends| == |starts|
  {
    seq(|starts|, i requires 0 <= i < |starts| => starts[i] + BlocSize(starts, size, i))
  }

  // The ends the loop works with: none when the bloc list could not be built.
  ghost function EndsFor(fru: FruInfo, reply: Option<seq<byte>>, read: RecordReader): seq<nat> {
    if ValidHeader(reply) then BlocEnds(BlocStarts(reply.value, read, fru.size, fru.access), fru.size) else []
  }

  // The request size chosen on the first use: three bytes less than the interface
  // carries, at most 255, even for a word device. None when the interface is too small.
  function InitialMax(max: byte, maxRequest: nat, words: bool): Option<byte> {
    if max != 0 then Some(max)
    else if maxRequest <= 3 then None
    else
      var n := if maxRequest - 3 > 255 then 255 else maxRequest - 3;
      Some(if words then n / 2 * 2 else n)
  }

  // A size in bytes, or in whole words, with which a request and its three bytes in front
  // fit what the interface carries, and no larger one does; a size has eight bits.
  ghost predicate FillsRequest(words: bool, maxRequest: nat, max: nat) {
    var unit := if words then 2 else 1;
    && max % unit == 0 && max <= 255 && max + 3 <= maxRequest
    && (max + unit > 255 || max + unit + 3 > maxRequest)
  }

  lemma InitialMaxFills(max: byte, maxRequest: nat, words: bool)
    ensures var m := InitialMax(max, maxRequest, words);
      && (m.None? <==> max == 0 && maxRequest <= 3)
      && (m.Some? ==> if max == 0 then FillsRequest(words, maxRequest, m.value) else m.value == max)
  {
  }

  // The cases that end with -1 before any write request is sent.
  predicate Refused(fru: FruInfo, doffset: nat, length: nat, maxRequest: nat)
    reads fru
  {
    || doffset + length > fru.size
    || (fru.access && (doffset % 2 == 1 || length % 2 == 1))
    || InitialMax(fru.maxWriteSize, maxRequest, fru.access).None?
  }

  // The bloc list seen by the loop: linked, with the ends of the configuration.
  ghost predicate Linked(nodes: seq<Bloc>, ends: seq<nat>)
    reads nodes
  {
    && |nodes| == |ends|
    && forall i :: 0 <= i < |nodes| ==>
        && nodes[i].start + nodes[i].size == ends[i]
        && nodes[i].next == if i + 1 < |nodes| then nodes[i + 1] else null
  }

  ghost function NodeAt(nodes: seq<Bloc>, i: nat): Bloc? {
    if i < |nodes| then nodes[i] else null
  }

  // Skips the blocs that end at or before the cursor.
  method SkipBlocs(bloc: Bloc?, doffset: nat, ghost nodes: seq<Bloc>, ghost ends: seq<nat>, ghost i: nat)
    returns (found: Bloc?)
    requires Linked(nodes, ends) && i <= |nodes| && bloc == NodeAt(nodes, i)
    ensures found == NodeAt(nodes, BlocAt(ends, i, doffset))
  {
    found := bloc;
    ghost var j := i;
    while found != null && found.start + found.size <= doffset
      invariant j <= |nodes| && found == NodeAt(nodes, j) && BlocAt(ends, j, doffset) == BlocAt(ends, i, doffset)
      decreases |nodes| - j
    {
      found := found.next;
      j := j + 1;
    }
  }

  // The request for the current cursor: id, offset in the device's unit, data.
  method FillMessage(msg: array<byte>, id: byte, words: bool, doffset: nat, data: array<byte>, soffset: nat, len: nat)
    requires msg.Length == 258 && len <= 255 && soffset + len <= data.Length && msg != data
    modifies msg
    ensures msg[0] == id && msg[1] == OffsetLow(words, doffset) && msg[2] == OffsetHigh(words, doffset)
    ensures msg[3..len + 3] == data[soffset..soffset + len]
  {
    Memcpy(msg, 3, data, soffset, len);
    var tmp := doffset;
    if words {
      tmp := tmp / 2;
    }
    msg[0] := id;
    msg[1] := tmp % 0x100;
    msg[2] := tmp / 0x100 % 0x100;
  }

  // The end of the stretch the cursor is in: the bloc's end or the end of the call.
  method FindStretch(cur: Bloc?, dst: nat, finish: nat, ghost nodes: seq<Bloc>, ghost c: Config, ghost i: nat)
    returns (next: Bloc?, endBloc: nat)
    requires Linked(nodes, c.ends) && i <= |nodes| && cur == NodeAt(nodes, i)
    requires c.finish == finish && dst <= finish
    ensures next == NodeAt(nodes, BlocAt(c.ends, i, dst))
    ensures endBloc == EndOf(c, BlocAt(c.ends, i, dst)) && dst <= endBloc
  {
    next := SkipBlocs(cur, dst, nodes, c.ends, i);
    endBloc := finish;
    if next != null && next.start + next.size < finish {
      endBloc := next.start + next.size;
    }
  }

  // As much of the stretch as one request takes, made even for a word device.
  method ChunkLength(fru: FruInfo, tmp: nat) returns (writeLength: nat)
    ensures writeLength == (var n := if tmp > fru.maxWriteSize then fru.maxWriteSize else tmp; if fru.access then n / 2 * 2 else n)
    ensures writeLength <= tmp && writeLength <= fru.maxWriteSize
  {
    writeLength := tmp;
    if writeLength > fru.maxWriteSize {
      writeLength := fru.maxWriteSize;
    }
    if fru.access {
      writeLength := writeLength / 2 * 2;
    }
  }

  // Send the part of the stretch that fits one request.
  method SendChunk(dev: WriteDevice, fru: FruInfo, msg: array<byte>, id: byte, buf: array<byte>,
      src: nat, dst: nat, endBloc: nat, ghost c: Config, ghost s: State)
    returns (rsp: WriteAnswer, writeLength: nat)
    requires dev.words == fru.access && msg.Length == 258 && dev.served <= |dev.script|
    requires buf != dev.mem && msg != dev.mem && msg != buf
    requires Inv(c, s) && s == State(dst, src, fru.maxWriteSize, s.bloc, dev.mem[..])
    requires c.words == fru.access && c.src == buf[..] && endBloc == EndOf(c, BlocAt(c.ends, s.bloc, dst))
    modifies dev, dev.mem, msg
    ensures dev.served == Min(old(dev.served) + 1, |dev.script|)
    ensures rsp == AnswerAt(dev.script[old(dev.served)..])
    ensures RequestOf(c, s, rsp) == Request(dst, src, writeLength, endBloc, s.max, rsp)
    ensures dev.mem[..] == Step(c, s, rsp).s.mem
  {
    hide Step, Splice, BlocAt, EndOf, RequestOf, DeviceAddress, OffsetLow, OffsetHigh, Base;
    RequestIs(c, s, AnswerAt(dev.script[dev.served..]));
    writeLength := ChunkLength(fru, endBloc - dst);
    FillMessage(msg, id, fru.access, dst, buf, src, writeLength);
    AddressIsBase(fru.access, dst);
    ghost var payload := c.src[src..src + writeLength];
    assert msg[3..writeLength + 3] == payload;
    rsp := dev.SetFruData(msg, writeLength + 3);
    StepMemory(c, s, rsp);
    assert dev.mem[..] == if rsp == Ccode(CC_OK) then Splice(s.mem, Base(c.words, dst), payload) else s.mem;
  }

  lemma RequestIs(c: Config, s: State, a: WriteAnswer)
    requires Inv(c, s)
    ensures var end := EndOf(c, BlocAt(c.ends, s.bloc, s.dst));
      && s.dst <= end && RequestOf(c, s, a) == Request(s.dst, s.src, WriteLength(c, s, end), end, s.max, a)
  {
  }

  lemma StepMemory(c: Config, s: State, a: WriteAnswer)
    requires Inv(c, s)
    ensures var len := RequestOf(c, s, a).len;
      Step(c, s, a).s.mem == if a == Ccode(CC_OK) then Splice(s.mem, Base(c.words, s.dst), c.src[s.src..s.src + len]) else s.mem
  {
  }

  // What the answer does to the cursors and the request size; whether to go on.
  method HandleAnswer(fru: FruInfo, rsp: WriteAnswer, src: nat, dst: nat, endBloc: nat, writeLength: nat, finish: nat,
      ghost c: Config, ghost s: State)
    returns (src': nat, dst': nat, more: bool)
    requires Inv(c, s) && c.finish == finish && s.dst == dst && s.src == src && s.max == fru.maxWriteSize
    requires RequestOf(c, s, rsp) == Request(dst, src, writeLength, endBloc, s.max, rsp)
    modifies fru`maxWriteSize
    ensures var n := Step(c, s, rsp);
      n.s.dst == dst' && n.s.src == src' && n.s.max == fru.maxWriteSize && more == (n.Go? && dst' < finish)
  {
    src', dst', more := src, dst, false;
    match rsp {
      case NoResponse =>
      case Ccode(cc) =>
        if TooBig(cc) {
          if fru.maxWriteSize > FRU_AREA_MAXIMUM_BLOCK_SZ {
            fru.maxWriteSize := fru.maxWriteSize - FRU_BLOCK_SZ;
            more := dst < finish;
          }
        } else if cc == CC_WRITE_PROTECTED {
          src' := src + (endBloc - dst);
          dst' := endBloc;
          more := dst' < finish;
        } else if cc == CC_OK {
          dst' := dst + writeLength;
          src' := src + writeLength;
          more := dst' < finish;
        }
    }
  }

  // One pass of the loop is one step of the state machine.
  method Pass(dev: WriteDevice, fru: FruInfo, msg: array<byte>, id: byte, cur: Bloc?, buf: array<byte>,
      src: nat, dst: nat, finish: nat, ghost nodes: seq<Bloc>, ghost c: Config, ghost s: State)
    returns (next: Bloc?, src': nat, dst': nat, more: bool)
    requires dev.words == fru.access && msg.Length == 258 && dev.served <= |dev.script|
    requires buf != dev.mem && msg != dev.mem && msg != buf
    requires Linked(nodes, c.ends) && Inv(c, s) && cur == NodeAt(nodes, s.bloc)
    requires c.words == fru.access && c.finish == finish && c.src == buf[..]
    requires s == State(dst, src, fru.maxWriteSize, s.bloc, dev.mem[..])
    modifies dev, dev.mem, msg, fru`maxWriteSize
    ensures Linked(nodes, c.ends) && c.src == buf[..]
    ensures dev.served == Min(old(dev.served) + 1, |dev.script|)
    ensures old(dev.served) < |dev.script| ==> dev.script[dev.served..] == dev.script[old(dev.served)..][1..]
    ensures var n := Step(c, s, AnswerAt(dev.script[old(dev.served)..]));
      && n.s == State(dst', src', fru.maxWriteSize, n.s.bloc, dev.mem[..])
      && next == NodeAt(nodes, n.s.bloc) && more == (n.Go? && dst' < finish)
  {
    var endBloc, rsp, writeLength;
    next, endBloc := FindStretch(cur, dst, finish, nodes, c, s.bloc);
    rsp, writeLength := SendChunk(dev, fru, msg, id, buf, src, dst, endBloc, c, s);
    src', dst', more := HandleAnswer(fru, rsp, src, dst, endBloc, writeLength, finish, c, s);
  }

  // The loop sends at least one request and goes on as long as the end is not reached:
  // device, request size and cursor follow the run.
  method WriteLoop(dev: WriteDevice, fru: FruInfo, id: byte, bloc: Bloc?, buf: array<byte>,
      ghost nodes: seq<Bloc>, ghost c: Config, ghost s0: State, soffset: nat, doffset: nat, finish: nat)
    returns (dst: nat, ghost t: Trace)
    requires dev.words == fru.access && buf != dev.mem && dev.served <= |dev.script|
    requires Linked(nodes, c.ends) && bloc == NodeAt(nodes, 0)
    requires c.words == fru.access && c.finish == finish && c.src == buf[..]
    requires s0 == State(doffset, soffset, fru.maxWriteSize, 0, dev.mem[..]) && Inv(c, s0)
    modifies dev, dev.mem, fru`maxWriteSize
    ensures t == Run(c, s0, dev.script[old(dev.served)..])
    ensures dev.mem[..] == t.final.mem && fru.maxWriteSize == t.final.max && dst == t.final.dst
  {
    hide Run, Step, RequestOf;
    var msg := new byte[258](_ => 0);
    var cur, src, more := bloc, soffset, true;
    dst := doffset;
    ghost var s := s0;
    ghost var log: seq<Request> := [];
    ghost var answers := dev.script[dev.served..];
    t := Run(c, s0, answers);
    assert t == Prepend(log, t);
    while more
      invariant Linked(nodes, c.ends) && Inv(c, s) && c.src == buf[..]
      invariant s == State(dst, src, fru.maxWriteSize, s.bloc, dev.mem[..])
      invariant cur == NodeAt(nodes, s.bloc)
      invariant dev.served <= |dev.script| && answers == dev.script[dev.served..]
      invariant t == if more then Prepend(log, Run(c, s, answers)) else Trace(s, log)
      decreases more, |answers|
    {
      cur, src, dst, more := Pass(dev, fru, msg, id, cur, buf, src, dst, finish, nodes, c, s);
      RunStep(c, s, answers, log, more, t);
      ghost var a := AnswerAt(answers);
      s, log := Step(c, s, a).s, log + [RequestOf(c, s, a)];
      answers := dev.script[dev.served..];
    }
  }

  ghost function Prepend(log: seq<Request>, t: Trace): Trace {
    Trace(t.final, log + t.log)
  }

  lemma RunStep(c: Config, s: State, answers: seq<WriteAnswer>, log: seq<Request>, more: bool, t: Trace)
    requires Inv(c, s) && t == Prepend(log, Run(c, s, answers))
    requires var n := Step(c, s, AnswerAt(answers)); more == (n.Go? && n.s.dst < c.finish)
    ensures more ==> answers != []
    ensures var n, log' := Step(c, s, AnswerAt(answers)), log + [RequestOf(c, s, AnswerAt(answers))];
      t == if more then Prepend(log', Run(c, n.s, answers[1..])) else Trace(n.s, log')
  {
    var a := AnswerAt(answers);
    var n, r := Step(c, s, a), RequestOf(c, s, a);
    if more {
      assert log + ([r] + Run(c, n.s, answers[1..]).log) == (log + [r]) + Run(c, n.s, answers[1..]).log;
    }
  }

  lemma ChainIsLinked(nodes: seq<Bloc>, starts: seq<nat>, size: nat)
    requires Chain(nodes, starts, size)
    ensures Linked(nodes, BlocEnds(starts, size))
  {
    forall i | 0 <= i < |nodes|
      ensures nodes[i].start + nodes[i].size == BlocEnds(starts, size)[i]
      ensures nodes[i].next == if i + 1 < |nodes| then nodes[i + 1] else null
    {
      assert NodeOk(nodes, starts, size, i);
    }
  }

  // Initialise the request size on the first use.
  method ChooseMax(fru: FruInfo, maxRequest: nat) returns (ok: bool)
    modifies fru`maxWriteSize
    ensures ok <==> InitialMax(old(fru.maxWriteSize), maxRequest, fru.access).Some?
    ensures fru.maxWriteSize == if ok then InitialMax(old(fru.maxWriteSize), maxRequest, fru.access).value else old(fru.maxWriteSize)
  {
    if fru.maxWriteSize == 0 {
      if maxRequest <= 3 {
        return false;
      }
      fru.maxWriteSize := if maxRequest - 3 > 255 then 255 else maxRequest - 3;
      if fru.access {
        fru.maxWriteSize := fru.maxWriteSize / 2 * 2;
      }
    }
    return true;
  }

  // Write length bytes of buf from soffset to the device's doffset. All offsets have
  // sixteen bits and every caller passes a range that ends below 65536.
  method WriteFruArea(dev: WriteDevice, fru: FruInfo, id: byte, soffset: nat, doffset: nat, length: nat,
      buf: array<byte>, reply: Option<seq<byte>>, read: RecordReader, maxRequest: nat)
    returns (rc: int, ghost c: Config, ghost t: Trace)
    requires dev.words == fru.access && buf != dev.mem && dev.served <= |dev.script|
    requires fru.size < 0x1_0000 && fru.size <= dev.mem.Length
    requires doffset + length < 0x1_0000 && soffset + length <= buf.Length
    requires reply.Some? ==> |reply.value| == 8
    modifies dev, dev.mem, fru`maxWriteSize
    ensures c == Config(fru.access, doffset + length, EndsFor(fru, reply, read), buf[..])
    ensures rc == -1 <==>
      || doffset + length > fru.size || (fru.access && (doffset % 2 == 1 || length % 2 == 1))
      || (old(fru.maxWriteSize) == 0 && maxRequest <= 3)
    ensures rc != -1 ==>
      && t.log != [] && LogIs(c, doffset, soffset, t.log[0].max, dev.script[old(dev.served)..], t)
      && (if old(fru.maxWriteSize) == 0 then FillsRequest(fru.access, maxRequest, t.log[0].max) else t.log[0].max == old(fru.maxWriteSize) as int)
      && (forall k :: 0 <= k < |t.log| ==> t.log[k].len <= t.log[0].max)
      && (old(fru.maxWriteSize) == 0 ==> forall k :: 0 <= k < |t.log| ==> t.log[k].len + 3 <= maxRequest)
    ensures old(Refused(fru, doffset, length, maxRequest)) ==>
      rc == -1 && dev.mem[..] == old(dev.mem[..]) && dev.served == old(dev.served) && fru.maxWriteSize == old(fru.maxWriteSize)
    ensures !old(Refused(fru, doffset, length, maxRequest)) ==>
      var s0 := State(doffset, soffset, InitialMax(old(fru.maxWriteSize), maxRequest, fru.access).value, 0, old(dev.mem[..]));
      && Inv(c, s0) && t == Run(c, s0, dev.script[old(dev.served)..])
      && dev.mem[..] == t.final.mem && fru.maxWriteSize == t.final.max
      && rc == if t.final.dst >= doffset + length then 1 else 0
  {
    var finish := (doffset + length) % 0x1_0000;
    c := Config(fru.access, doffset + length, EndsFor(fru, reply, read), buf[..]);
    t := Trace(State(0, 0, 0, 0, []), []);
    if finish > fru.size {
      return -1, c, t;
    }
    if fru.access && (doffset % 2 == 1 || length % 2 == 1) {
      return -1, c, t;
    }
    var bloc; ghost var nodes, starts;
    bloc, nodes, starts := BuildFruBloc(fru.size, fru.access, reply, read);
    if bloc != null {
      ChainIsLinked(nodes, starts, fru.size);
    }
    var ok := ChooseMax(fru, maxRequest);
    if !ok {
      return -1, c, t;
    }
    ghost var s0 := State(doffset, soffset, fru.maxWriteSize, 0, dev.mem[..]);
    var dst;
    InitialMaxFills(old(fru.maxWriteSize), maxRequest, fru.access);
    RunLog(c, s0, dev.script[dev.served..]);
    RunSizes(c, s0, dev.script[dev.served..]);
    hide LogIs, InitialMax, Run;
    dst, t := WriteLoop(dev, fru, id, bloc, buf, nodes, c, s0, soffset, doffset, finish);
    rc := if dst >= finish then 1 else 0;
  }

  lemma RunSizes(c: Config, s: State, answers: seq<WriteAnswer>)
    requires Inv(c, s) && LogIs(c, s.dst, s.src, s.max, answers, Run(c, s, answers))
    ensures var log := Run(c, s, answers).log; log != [] && log[0].max == s.max && forall k :: 0 <= k < |log| ==> log[k].len <= s.max
  {
    hide Run;
    var t := Run(c, s, answers);
    forall k | 0 <= k < |t.log| ensures t.log[k].len <= s.max {
      LogSizes(c, s.dst, s.src, s.max, answers, t, k);
    }
  }

  // ---- the promises of FruWrite for the blocs that build_fru_bloc makes ----

  // The built list always reaches the end of the device, so the bloc cursor is valid.
  lemma BuiltBlocsReachTheEnd(c: Config, s: State, starts: seq<nat>, size: nat)
    requires |starts| >= 1 && c.ends == BlocEnds(starts, size) && c.finish <= size < 0x1_0000
    requires forall i :: 0 <= i < |starts| ==> starts[i] < 0x1_0000
    requires s.bloc == 0
    ensures CursorOk(c, s)
  {
  }

  ghost predicate InTile(starts: seq<nat>, size: nat, r: Request) {
    exists b :: 0 <= b < |starts| && starts[b] <= r.dst && r.end <= starts[b] + BlocSize(starts, size, b)
  }

  lemma InBlocIsInTile(starts: seq<nat>, size: nat, b: nat, r: Request)
    requires Tiles(starts, size) && InBloc(BlocEnds(starts, size), b, r)
    ensures InTile(starts, size, r)
  {
    assert ReachesNext(starts, size, b);
    assert b > 0 ==> ReachesNext(starts, size, b - 1);
  }

  // For an ordered common header the list tiles the device and every write request lies
  // inside one bloc, inside the destination range and within the request size.
  lemma RequestsStayInTiles(c: Config, s: State, answers: seq<WriteAnswer>, h: seq<byte>, read: RecordReader, size: nat, words: bool)
    requires |h| == 8 && size < 0x1_0000 && HeaderOrdered(h, read, size)
    requires c.ends == BlocEnds(BlocStarts(h, read, size, words), size) && c.finish <= size
    requires Inv(c, s) && s.bloc == 0 && s.dst < c.finish
    ensures forall r :: r in Run(c, s, answers).log ==> Contained(c, s.dst, s.src, r)
    ensures forall r :: r in Run(c, s, answers).log ==> InTile(BlocStarts(h, read, size, words), size, r)
  {
    var starts := BlocStarts(h, read, size, words);
    TilesIffHeaderOrdered(h, read, size, words);
    assert ReachesNext(starts, size, |starts| - 1);
    assert c.ends[|c.ends| - 1] == size;
    RunContained(c, s, answers);
    forall r | r in Run(c, s, answers).log
      ensures Contained(c, s.dst, s.src, r) && InTile(starts, size, r)
    {
      assert Contained(c, s.dst, s.src, r);
      var b :| InBloc(c.ends, b, r);
      InBlocIsInTile(starts, size, b, r);
    }
  }

  // ---- word devices: where the multirecord area ends ----

  // The multirecord area ends at an odd offset behind `from`, with at least `gap` bytes
  // of the range behind it.
  ghost predicate OddEnd(h: seq<byte>, read: RecordReader, size: nat, from: nat, finish: nat, gap: nat)
    requires |h| == 8
  {
    h[5] != 0 && var end := MultiWalk(read, size, true, 8 * h[5] as int).end; from < end && end + gap <= finish && end % 2 == 1
  }

  // The ends of built blocs are the following starts and the end of the device.
  lemma BuiltEnds(h: seq<byte>, read: RecordReader, size: nat, words: bool)
    requires |h| == 8 && size < 0x1_0000 && HeaderOrdered(h, read, size)
    ensures var starts := BlocStarts(h, read, size, words);
      var ends := BlocEnds(starts, size);
      && |starts| >= 1 && Ordered(ends)
      && (forall i :: 0 <= i < |starts| ==> ends[i] == if i + 1 < |starts| then starts[i + 1] else size)
  {
    var starts := BlocStarts(h, read, size, words);
    var ends := BlocEnds(starts, size);
    TilesIffHeaderOrdered(h, read, size, words);
    forall i | 0 <= i < |starts|
      ensures ends[i] == if i + 1 < |starts| then starts[i + 1] else size
    {
      assert ReachesNext(starts, size, i);
    }
    EndsOrdered(starts, ends, size);
  }

  lemma EndsOrdered(starts: seq<nat>, ends: seq<nat>, size: nat)
    requires Tiles(starts, size) && |ends| == |starts|
    requires forall i :: 0 <= i < |starts| ==> ends[i] == if i + 1 < |starts| then starts[i + 1] else size
    ensures Ordered(ends)
  {
    forall i, j | 0 <= i < j < |ends| ensures ends[i] <= ends[j] {
      if j + 1 < |starts| {
        StepsUp(starts, size, i + 1, j + 1);
      } else {
        StepsUp(starts, size, i + 1, j);
        assert ReachesNext(starts, size, j);
      }
    }
  }

  // An odd end of a built bloc inside the device is where the multirecord area ends, and
  // such an end of the area is the one of the last bloc but one.
  lemma BuiltOddEnds(h: seq<byte>, read: RecordReader, size: nat)
    requires |h| == 8 && size < 0x1_0000 && HeaderOrdered(h, read, size)
    ensures var ends := BlocEnds(BlocStarts(h, read, size, true), size);
      && |ends| >= 1 && ends[|ends| - 1] == size
      && (forall i :: 0 <= i < |ends| - 1 && ends[i] % 2 == 1 ==> h[5] != 0 && ends[i] == MultiWalk(read, size, true, 8 * h[5] as int).end < size)
      && (h[5] != 0 && MultiWalk(read, size, true, 8 * h[5] as int).end < size ==>
            |ends| >= 2 && ends[|ends| - 2] == MultiWalk(read, size, true, 8 * h[5] as int).end)
  {
    var starts := BlocStarts(h, read, size, true);
    var ends := BlocEnds(starts, size);
    BuiltEnds(h, read, size, true);
    forall i | 0 <= i < |ends| - 1 && ends[i] % 2 == 1
      ensures h[5] != 0 && ends[i] == MultiWalk(read, size, true, 8 * h[5] as int).end < size
    {
      OnlyRemainderMayBeOdd(h, read, size, i + 1);
    }
    if h[5] != 0 {
      var w := MultiWalk(read, size, true, 8 * h[5] as int);
      if w.end < size {
        assert starts == AreaStarts(InfoOffsets(h)) + (w.starts + [w.end]);
        assert starts[|starts| - 1] == w.end;
      }
    }
  }

  // On a word device the blocs that build_fru_bloc makes leave the write loop aligned
  // exactly when the multirecord area does not end at an odd offset inside the range.
  lemma AlignedIffMultirecordsEndEven(c: Config, from: nat, h: seq<byte>, read: RecordReader, size: nat)
    requires |h| == 8 && size < 0x1_0000 && HeaderOrdered(h, read, size)
    requires c.words && c.ends == BlocEnds(BlocStarts(h, read, size, true), size) && c.finish <= size
    requires from % 2 == 0 && c.finish % 2 == 0
    ensures Aligned(c, from) <==> !OddEnd(h, read, size, from, c.finish, 1)
  {
    hide BlocEnds, BlocStarts, MultiWalk, HeaderOrdered;
    BuiltOddEnds(h, read, size);
    if OddEnd(h, read, size, from, c.finish, 1) {
      assert c.ends[|c.ends| - 2] % 2 == 1;
    }
  }

  // A bloc end is harmful exactly when it is that odd end and a whole word of the range
  // lies behind it.
  lemma NeverShiftsOnBuiltIff(c: Config, from: nat, max: nat, h: seq<byte>, read: RecordReader, size: nat)
    requires |h| == 8 && size < 0x1_0000 && HeaderOrdered(h, read, size)
    requires c.words && c.ends == BlocEnds(BlocStarts(h, read, size, true), size) && c.finish <= size
    ensures NeverShifts(c, from, max) <==> !(max >= 2 && OddEnd(h, read, size, from, c.finish, 2))
  {
    hide BlocEnds, BlocStarts, MultiWalk, HeaderOrdered;
    BuiltOddEnds(h, read, size);
    BuiltEnds(h, read, size, true);
    var n := |c.ends|;
    forall e | 0 <= e < n && c.ends[e] < size ensures NextEnd(c, e) == c.finish || NextEnd(c, e) == c.ends[BlocAt(c.ends, e, c.ends[e])] < size {
      assert BlocAt(c.ends, e, c.ends[e]) < n;
    }
    forall e | 0 <= e < n && Shifts(c, from, max, e) ensures OddEnd(h, read, size, from, c.finish, 2) {
      assert c.ends[e] < c.finish <= size;
    }
    if max >= 2 && OddEnd(h, read, size, from, c.finish, 2) {
      assert BlocAt(c.ends, n - 2, c.ends[n - 2]) == n - 1;
      assert Shifts(c, from, max, n - 2);
    }
  }

  // For the blocs of an ordered header: every write has its effect on every device if and
  // only if the multirecord area does not end at an odd offset of a word device with a
  // word of the range behind it.
  lemma EffectiveOnBuiltIff(c: Config, s: State, h: seq<byte>, read: RecordReader, size: nat)
    requires |h| == 8 && size < 0x1_0000 && HeaderOrdered(h, read, size)
    requires c.ends == BlocEnds(BlocStarts(h, read, size, c.words), size) && c.finish <= size
    requires Inv(c, s) && s.bloc == 0 && EvenRange(c, s.dst)
    ensures AlwaysEffective(c, s) <==> !(c.words && s.max >= 2 && OddEnd(h, read, size, s.dst, c.finish, 2))
    ensures EffectiveOnSuccess(c, s) <==> !(c.words && s.max >= 2 && OddEnd(h, read, size, s.dst, c.finish, 2))
  {
    BuiltEnds(h, read, size, c.words);
    EffectiveIffNeverShifts(c, s);
    if c.words {
      NeverShiftsOnBuiltIff(c, s.dst, s.max, h, read, size);
    }
  }

  // And the number of requests of a call has a bound if and only if the request size
  // covers one unit and the area does not end at an odd offset inside the range.
  lemma BoundedOnBuiltIff(c: Config, s: State, h: seq<byte>, read: RecordReader, size: nat)
    requires |h| == 8 && size < 0x1_0000 && HeaderOrdered(h, read, size)
    requires c.ends == BlocEnds(BlocStarts(h, read, size, c.words), size) && c.finish <= size
    requires Inv(c, s) && s.dst < c.finish && s.bloc == 0 && EvenRange(c, s.dst)
    ensures (exists bound: nat :: BoundsRuns(c, s, bound)) <==>
      s.max >= (if c.words then 2 else 1) && !(c.words && OddEnd(h, read, size, s.dst, c.finish, 1))
  {
    hide BlocEnds, BlocStarts, HeaderOrdered, OddEnd, BoundsRuns;
    BuiltEnds(h, read, size, c.words);
    BoundedIffProgress(c, s);
    if c.words {
      AlignedIffMultirecordsEndEven(c, s.dst, h, read, size);
    }
  }

  // ---- a device on which both fail ----

  // A 24-byte word device with one record at offset 8 that has no data and is the last.
  const OddHeader: seq<byte> := [1, 0, 0, 0, 0, 1, 0, 254]

  function OddRecords(off: nat): Option<RecordHeader> {
    if off == 8 then Some(RecordHeader(0, 0x80, 0, 0, 0x80)) else None
  }

  lemma OddBlocs()
    ensures ValidHeader(Some(OddHeader)) && HeaderOrdered(OddHeader, OddRecords, 24)
    ensures MultiWalk(OddRecords, 24, true, 8) == Walk([8], 13)
    ensures BlocStarts(OddHeader, OddRecords, 24, true) == [0, 8, 13]
  {
    var o := InfoOffsets(OddHeader);
    assert o == [0, 0, 0, 0];
    assert AreaStarts(o[..1]) == [0] by {
      assert o[..1][..0] == [];
    }
    assert o[..2][..1] == o[..1] && o[..3][..2] == o[..2] && o[..3] == o[..|o| - 1];
    assert AreaStarts(o) == [0];
    OddHeaderSum();
  }

  lemma OddHeaderSum()
    ensures ZeroSum(OddHeader)
  {
    assert Sum([1, 0, 0, 0, 0, 1, 0, 254]) == 256 by {
      SumAppend([1, 0, 0, 0], [0, 1, 0, 254]);
      assert [1, 0, 0, 0] + [0, 1, 0, 254] == OddHeader;
    }
  }

  // The second bloc is protected, and so is the last byte of the third.
  const ShiftingAnswers: seq<WriteAnswer> :=
    [Ccode(CC_OK), Ccode(CC_WRITE_PROTECTED), Ccode(CC_OK), Ccode(CC_OK), Ccode(CC_WRITE_PROTECTED)]

  lemma ShiftingAnswersRun(c: Config, s: State)
    requires |c.src| == |s.mem| == 24 && c == Config(true, 24, [8, 13, 24], c.src) && s == State(0, 0, 8, 0, s.mem)
    ensures Inv(c, s)
    ensures var t := Run(c, s, ShiftingAnswers); t.final.dst == 24 && t.final.mem[12] == c.src[13]
  {
    var src, a := c.src, ShiftingAnswers;
    assert a[1..][1..] == a[2..] && a[2..][1..] == a[3..] && a[3..][1..] == a[4..] && a[4..][1..] == [];
    var m1 := Splice(s.mem, 0, src[0..8]);
    var m2 := Splice(m1, 12, src[13..21]);
    var m3 := Splice(m2, 20, src[21..23]);
    var s1, s2 := State(8, 8, 8, 0, m1), State(13, 13, 8, 1, m1);
    var s3, s4, s5 := State(21, 21, 8, 2, m2), State(23, 23, 8, 2, m3), State(24, 24, 8, 2, m3);
    assert Step(c, s, a[0]) == Go(s1) && Step(c, s1, a[1]) == Go(s2) && Step(c, s2, a[2]) == Go(s3);
    assert Step(c, s3, a[3]) == Go(s4) && Step(c, s4, a[4]) == Go(s5);
    assert m3[12] == m2[12] == src[13..21][0];
    hide Step, RequestOf, Splice;
    assert Run(c, s4, a[4..]).final == s5;
    assert Run(c, s3, a[3..]).final == s5;
    assert Run(c, s2, a[2..]).final == s5;
    assert Run(c, s1, a[1..]).final == s5;
  }

  // Writing all of it can report success with byte 12 of the protected bloc replaced by
  // byte 13 of the source, and can go on for ever.
  lemma OddEndBreaksWrites(src: seq<byte>, mem: seq<byte>)
    requires |src| == |mem| == 24
    ensures var ends := BlocEnds(BlocStarts(OddHeader, OddRecords, 24, true), 24);
      var c, s := Config(true, 24, ends, src), State(0, 0, 8, 0, mem);
      && ends == [8, 13, 24] && Inv(c, s)
      && !EffectiveOnSuccess(c, s) && !exists bound: nat :: BoundsRuns(c, s, bound)
    ensures var ends := BlocEnds(BlocStarts(OddHeader, OddRecords, 24, true), 24);
      var t := Run(Config(true, 24, ends, src), State(0, 0, 8, 0, mem), ShiftingAnswers);
      t.final.dst == 24 && t.final.mem[12] == src[13]
  {
    hide BoundsRuns, AlwaysEffective, EffectiveOnSuccess;
    var ends := BlocEnds(BlocStarts(OddHeader, OddRecords, 24, true), 24);
    var c, s := Config(true, 24, ends, src), State(0, 0, 8, 0, mem);
    OddBlocs();
    EffectiveOnBuiltIff(c, s, OddHeader, OddRecords, 24);
    BoundedOnBuiltIff(c, s, OddHeader, OddRecords, 24);
    ShiftingAnswersRun(c, s);
  }
}
