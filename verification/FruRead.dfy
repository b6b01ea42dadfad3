// The chunked readers read_fru_area and read_fru_area_section of lib/ipmi_fru.c over a
// buffer and a device, proved to follow the run of FruReadRun.
module FruRead {
  import opened Bytes
  import opened FruDevice
  import opened FruReadRun
  import opened FruReadLog

  class ReadDevice {
    const words: bool
    const mem: seq<byte>
    const script: seq<ReadAnswer>
    var served: nat
    ghost var asked: seq<(nat, nat)>  // address and count of every request

    constructor (words: bool, mem: seq<byte>, script: seq<ReadAnswer>)
      ensures this.words == words && this.mem == mem && this.script == script && served == 0 && asked == []
    {
      asked := [];
      this.words := words;
      this.mem := mem;
      this.script := script;
      served := 0;
    }

    // Read FRU Data: the requested count limits nothing the reader may rely on.
    method GetFruData(low: byte, high: byte, count: byte) returns (rsp: Response)
      requires served <= |script|
      modifies this
      ensures served == Min(old(served) + 1, |script|)
      ensures asked == old(asked) + [(DeviceAddress(words, low, high), count as nat)]
      ensures rsp == Respond(mem, DeviceAddress(words, low, high), AnswerAt(script, old(served)))
    {
      var a := Silent;
      if served < |script| {
        a := script[served];
        served := served + 1;
      }
      rsp := Respond(mem, DeviceAddress(words, low, high), a);
      asked := asked + [(DeviceAddress(words, low, high), count as nat)];
    }
  }

  // Copies the start of a response's payload into the buffer.
  method Store(buf: array<byte>, at: nat, payload: seq<byte>, n: nat)
    requires n <= |payload| && at + n <= buf.Length
    modifies buf
    ensures buf[..] == Splice(old(buf[..]), at, payload[..n])
  {
    forall i | 0 <= i < n {
      buf[at + i] := payload[i];
    }
  }

  // A size in bytes, or in whole words, that with a completion code and a count byte in
  // front fits the largest response, and no larger one does; a size has eight bits.
  ghost predicate FillsResponse(words: bool, maxResponse: nat, max: nat) {
    var unit := if words then 2 else 1;
    && max % unit == 0 && max <= 255 && max + 2 <= maxResponse
    && (max + unit > 255 || max + unit + 2 > maxResponse)
  }

  lemma InitialReadSizeFills(max: byte, maxResponse: nat, words: bool)
    requires 1 <= maxResponse
    ensures var m := InitialReadSize(max, maxResponse, words);
      && (m.None? <==> max == 0 && maxResponse <= 2)
      && (m.Some? ==> if max == 0 then FillsResponse(words, maxResponse, m.value) else m.value == max)
  {
  }

  lemma FirstAsks(c: Reading, off: nat, max: nat, served: nat)
    requires off <= c.finish && served <= |c.script| && LogIs(c, off, max, served, ReadRun(c, off, max, served))
    ensures var o := ReadRun(c, off, max, served); o.log != [] && o.log[0].max == max
  {
  }

  method ChooseReadSize(fru: FruInfo, maxResponse: nat) returns (ok: bool)
    requires 1 <= maxResponse
    modifies fru`maxReadSize
    ensures ok <==> InitialReadSize(old(fru.maxReadSize), maxResponse, fru.access).Some?
    ensures fru.maxReadSize == if ok then InitialReadSize(old(fru.maxReadSize), maxResponse, fru.access).value else old(fru.maxReadSize)
  {
    if fru.maxReadSize == 0 {
      var maxRsSize := maxResponse - 1;
      if maxRsSize <= 1 {
        return false;
      }
      fru.maxReadSize := if maxRsSize - 1 > 255 then 255 else maxRsSize - 1;
      if fru.access {
        fru.maxReadSize := fru.maxReadSize / 2 * 2;
      }
    }
    return true;
  }

  // The common middle of both FRU read loops: check the reply and copy it.
  method TakeReply(words: bool, rsp: Response, buf: array<byte>, pos: nat, left: nat,
      ghost mem: seq<byte>, ghost from: nat, ghost before: seq<byte>)
    returns (ok: bool, tmp: nat)
    requires rsp.Data? && TrueReply(mem, from + pos, rsp)
    requires pos + left <= buf.Length && ReadPrefix(mem, from, before, buf[..], pos)
    modifies buf
    ensures tmp == Carried(words, rsp.count)
    ensures ok <==> 1 <= rsp.dataLen && tmp <= rsp.dataLen - 1 && tmp <= left
    ensures ok ==> tmp <= left && ReadPrefix(mem, from, before, buf[..], pos + tmp)
    ensures !ok ==> buf[..] == old(buf[..])
  {
    tmp := Carried(words, rsp.count);
    if rsp.dataLen < 1 || tmp > rsp.dataLen - 1 || tmp > left {
      return false, tmp;
    }
    ghost var p := rsp.payload[..tmp];
    assert p != [] ==> p == mem[from + pos..from + pos + |rsp.payload|][..tmp];
    ReadMore(mem, from, before, buf[..], pos, p);
    Store(buf, pos, rsp.payload, tmp);
    return true, tmp;
  }

  // A reply from the device: dataLen is 0 or counts the payload, which is what the
  // device holds from `at` on.
  ghost predicate TrueReply(mem: seq<byte>, at: nat, rsp: Response) {
    rsp.Data? ==>
      && (rsp.dataLen == 0 || rsp.dataLen == 1 + |rsp.payload|)
      && (rsp.payload != [] ==> at + |rsp.payload| <= |mem| && rsp.payload == mem[at..at + |rsp.payload|])
  }

  // One request for what is left up to finish, cut to max.
  method RequestChunk(dev: ReadDevice, words: bool, off: nat, finish: nat, max: nat) returns (rsp: Response)
    requires dev.words == words && dev.served <= |dev.script|
    requires off <= finish && off < 0x1_0000
    modifies dev
    ensures dev.served == Min(old(dev.served) + 1, |dev.script|)
    ensures rsp == Respond(dev.mem, Base(words, off), AnswerAt(dev.script, old(dev.served)))
    ensures TrueReply(dev.mem, Base(words, off), rsp)
    ensures dev.asked == old(dev.asked) + [(Base(words, off), CountOf(max, finish - off) as nat)]
  {
    var tmp := if words then off / 2 else off;
    var low, high := tmp % 0x100, tmp / 0x100 % 0x100;
    var count := if finish - off > max then max % 0x100 else (finish - off) % 0x100;
    AddressIsBase(words, off);
    rsp := dev.GetFruData(low, high, count);
  }

  lemma BaseAdvances(words: bool, off: nat, count: byte)
    ensures Base(words, off + Carried(words, count)) == Base(words, off) + Carried(words, count)
  {
  }

  // One request and, if it is answered with data, its copy into the buffer.
  method Fetch(dev: ReadDevice, c: Reading, offset: nat, off: nat, max: nat, buf: array<byte>, ghost before: seq<byte>)
    returns (r: Fetched)
    requires dev.words == c.words && dev.mem == c.mem && dev.script == c.script && dev.served <= |dev.script|
    requires offset <= off <= c.finish < 0x1_0000 && c.finish - offset <= buf.Length
    requires Base(c.words, off) == Base(c.words, offset) + (off - offset)
    requires ReadPrefix(c.mem, Base(c.words, offset), before, buf[..], off - offset)
    modifies dev, buf
    ensures dev.served == Min(old(dev.served) + 1, |dev.script|)
    ensures r == FetchOf(c.mem, c.words, off, c.finish, AnswerAt(c.script, old(dev.served)))
    ensures dev.asked == old(dev.asked) + Wire([RequestOf(c, off, max, old(dev.served))])
    ensures var n := off - offset + if r.Got? then r.got else 0;
      && off <= offset + n <= c.finish && Base(c.words, offset + n) == Base(c.words, offset) + n
      && ReadPrefix(c.mem, Base(c.words, offset), before, buf[..], n)
  {
    hide ReadPrefix, TrueReply, Base, Carried, Respond;
    var rsp := RequestChunk(dev, c.words, off, c.finish, max);
    match rsp {
      case NoReply =>
        r := Quiet;
      case Failed(cc) =>
        r := Refused(cc);
      case Data(count, _, _) =>
        var ok, got := TakeReply(c.words, rsp, buf, off - offset, c.finish - off, c.mem, Base(c.words, offset), before);
        BaseAdvances(c.words, off, count);
        r := if ok then Got(got) else Bad;
    }
  }

  // ---- one step of the run ----

  lemma WireMore(asked: seq<(nat, nat)>, log: seq<ReadRequest>, r: ReadRequest)
    ensures (asked + Wire(log)) + Wire([r]) == asked + Wire(log + [r])
  {
  }

  lemma RunStarts(target: Outcome)
    ensures target == After([], 0, target)
  {
  }

  // What is left of the run, seen from inside a loop that has sent log.
  lemma RunStep(c: Reading, off: nat, max: nat, served: nat, target: Outcome, log: seq<ReadRequest>, retries: nat)
    requires off <= c.finish && served <= |c.script| && target == After(log, retries, ReadRun(c, off, max, served))
    ensures var next, log' := Min(served + 1, |c.script|), log + [RequestOf(c, off, max, served)];
      match FetchOf(c.mem, c.words, off, c.finish, AnswerAt(c.script, served))
      case Quiet => target == After(log', retries, LoopEnd(c, off, max, next))
      case Refused(cc) =>
        var (again, m) := AfterError(c.section, cc, max);
        target == After(log', retries + if again then 1 else 0,
                        if again && off < c.finish then ReadRun(c, off, m, next) else LoopEnd(c, off, m, next))
      case Bad => target == Outcome(-1, off, max, next, log', retries)
      case Got(got) =>
        if got == 0 && off < c.finish then target == Outcome(0, off, max, next, log', retries)
        else target == After(log', retries, if off + got < c.finish then ReadRun(c, off + got, max, next) else LoopEnd(c, off + got, max, next))
    ensures |c.script| <= served ==> FetchOf(c.mem, c.words, off, c.finish, AnswerAt(c.script, served)) == Quiet
  {
    hide FetchOf, RequestOf, AfterError;
    var req, log' := [RequestOf(c, off, max, served)], log + [RequestOf(c, off, max, served)];
    assert forall more: seq<ReadRequest> :: log + (req + more) == log' + more;
  }

  // ---- read_fru_area ----

  // "Too big": make later requests smaller, for this call and all that follow.
  method ReduceOnError(fru: FruInfo, cc: errorCode) returns (again: bool)
    modifies fru`maxReadSize
    ensures (again, fru.maxReadSize as nat) == AfterError(false, cc, old(fru.maxReadSize))
  {
    again := TooBig(cc) && fru.maxReadSize > FRU_BLOCK_SZ;
    if again {
      if fru.maxReadSize > FRU_AREA_MAXIMUM_BLOCK_SZ {
        fru.maxReadSize := fru.maxReadSize - FRU_BLOCK_SZ;
      } else {
        fru.maxReadSize := fru.maxReadSize - 1;
      }
    }
  }

  // The clipping memset writes behind buf[size], which is inside the buffer only when
  // length covers the whole device. n bytes of the range are read.
  method ReadFruArea(dev: ReadDevice, fru: FruInfo, offset: nat, length: nat, buf: array<byte>, maxResponse: nat)
    returns (rc: int, ghost n: nat, ghost o: Outcome)
    requires dev.words == fru.access && dev.served <= |dev.script|
    requires fru.size < 0x1_0000 && length <= buf.Length && 1 <= maxResponse
    requires offset <= fru.size < offset + length ==> fru.size <= length
    modifies dev, fru`maxReadSize, buf
    ensures o == ReadCall(fru.access, fru.size, Call(dev.mem, dev.script, old(dev.served), offset, length, maxResponse), old(fru.maxReadSize))
    ensures rc == o.rc && offset + n == o.off && fru.maxReadSize == o.max && dev.served == o.served
    ensures dev.asked == old(dev.asked) + Wire(o.log)
    ensures o.log == [] <==> offset > fru.size || (old(fru.maxReadSize) == 0 && maxResponse <= 2)
    ensures o.log == [] ==> rc == -1 && fru.maxReadSize == old(fru.maxReadSize)
    ensures o.log != [] ==>
      var finish := if offset + length > fru.size then fru.size else offset + length;
      && LogIs(Reading(dev.mem, fru.access, finish, false, dev.script), offset, o.log[0].max, old(dev.served), o)
      && (if old(fru.maxReadSize) == 0 then FillsResponse(fru.access, maxResponse, o.log[0].max)
          else o.log[0].max == old(fru.maxReadSize) as int)
    ensures offset > fru.size ==> buf[..] == old(buf[..])
    ensures offset <= fru.size ==>
      var len := Clipped(offset, length, fru.size);
      var before := if offset + length > fru.size then Splice(old(buf[..]), fru.size, Zeros(length - fru.size)) else old(buf[..]);
      && ReadPrefix(dev.mem, Base(fru.access, offset), before, buf[..], n)
      && |o.log| <= len + 1 + o.retries
      && AskedInside(o.log, Base(fru.access, offset), offset + len, ReadLimit(old(fru.maxReadSize), maxResponse, fru.access))
  {
    hide ReadRun, ReadPrefix, AskedInside, Splice, RequestOf, LoopEnd, After, Base, LogIs;
    InitialReadSizeFills(fru.maxReadSize, maxResponse, fru.access);
    NothingInside(Base(fru.access, offset));
    n := 0;
    o := Outcome(-1, offset, fru.maxReadSize, dev.served, [], 0);
    if offset > fru.size {
      return -1, n, o;
    }
    var finish := offset + length;
    if finish > fru.size {
      Memzero(buf, fru.size, length - fru.size);
      finish := fru.size;
    }
    ReadNothing(dev.mem, Base(fru.access, offset), buf[..]);
    var ok := ChooseReadSize(fru, maxResponse);
    if !ok {
      return -1, n, o;
    }
    ghost var c := Reading(dev.mem, fru.access, finish, false, dev.script);
    RequestsCounted(c, offset, fru.maxReadSize, dev.served);
    RequestsInside(c, offset, fru.maxReadSize, dev.served);
    ReadLog(c, offset, fru.maxReadSize, dev.served);
    FirstAsks(c, offset, fru.maxReadSize, dev.served);
    rc, n, o := ReadLoop(dev, fru, offset, finish, buf);
  }

  lemma NothingInside(from: nat)
    ensures forall finish: nat, limit: nat :: AskedInside([], from, finish, limit)
  {
  }

  method ReadLoop(dev: ReadDevice, fru: FruInfo, offset: nat, finish: nat, buf: array<byte>)
    returns (rc: int, ghost n: nat, ghost o: Outcome)
    requires dev.words == fru.access && dev.served <= |dev.script|
    requires offset <= finish < 0x1_0000 && finish - offset <= buf.Length
    modifies dev, fru`maxReadSize, buf
    ensures o == ReadRun(Reading(dev.mem, fru.access, finish, false, dev.script), offset, old(fru.maxReadSize), old(dev.served))
    ensures rc == o.rc && offset + n == o.off && fru.maxReadSize == o.max && dev.served == o.served
    ensures dev.asked == old(dev.asked) + Wire(o.log)
    ensures ReadPrefix(dev.mem, Base(fru.access, offset), old(buf[..]), buf[..], n)
  {
    hide ReadPrefix, Base, FetchOf, AfterError, ReadRun, RequestOf, Wire;
    ghost var before, asked0 := buf[..], dev.asked;
    var c := Reading(dev.mem, fru.access, finish, false, dev.script);
    ghost var log, retries := [], 0;
    o := ReadRun(c, offset, fru.maxReadSize, dev.served);
    RunStarts(o);
    ReadNothing(c.mem, Base(c.words, offset), before);
    var off, more := offset, true;
    n := 0;
    while more
      invariant dev.served <= |dev.script| && offset <= off <= finish && n == off - offset
      invariant Base(c.words, off) == Base(c.words, offset) + n
      invariant ReadPrefix(c.mem, Base(c.words, offset), before, buf[..], n)
      invariant o == After(log, retries, if more then ReadRun(c, off, fru.maxReadSize, dev.served) else LoopEnd(c, off, fru.maxReadSize, dev.served))
      invariant dev.asked == asked0 + Wire(log)
      decreases more, |dev.script| - dev.served
    {
      RunStep(c, off, fru.maxReadSize, dev.served, o, log, retries);
      WireMore(asked0, log, RequestOf(c, off, fru.maxReadSize, dev.served));
      log := log + [RequestOf(c, off, fru.maxReadSize, dev.served)];
      var r := Fetch(dev, c, offset, off, fru.maxReadSize, buf, before);
      match r {
        case Quiet =>
          more := false;
        case Refused(cc) =>
          more := ReduceOnError(fru, cc);
          retries := retries + if more then 1 else 0;
          more := more && off < finish;
        case Bad =>
          return -1, n, o;
        case Got(got) =>
          off, n := off + got, n + got;
          if got == 0 && off < finish {
            return 0, n, o;
          }
          more := off < finish;
      }
    }
    rc := if off < finish then -1 else 0;
  }

  // ---- read_fru_area_section ----

  // The section reader keeps its request size in a static variable of 32 bits.
  class SectionReader {
    var rqstSize: nat

    constructor ()
      ensures rqstSize == 20
    {
      rqstSize := 20;
    }

    // The size is reduced only for "too big", and before it is compared.
    method Shrink(cc: errorCode) returns (again: bool)
      requires rqstSize < 0x1_0000_0000
      modifies this
      ensures (again, rqstSize) == AfterError(true, cc, old(rqstSize))
      ensures rqstSize < 0x1_0000_0000
    {
      again := false;
      if TooBig(cc) {
        rqstSize := (rqstSize - 1) % 0x1_0000_0000;
        again := rqstSize > FRU_BLOCK_SZ;
      }
    }

    method ReadFruAreaSection(dev: ReadDevice, fru: FruInfo, offset: nat, length: nat, buf: array<byte>)
      returns (rc: int, ghost n: nat, ghost o: Outcome)
      requires dev.words == fru.access && dev.served <= |dev.script| && rqstSize < 0x1_0000_0000
      requires fru.size < 0x1_0000 && length <= buf.Length
      requires offset <= fru.size < offset + length ==> fru.size <= length
      modifies this, dev, buf
      ensures rqstSize < 0x1_0000_0000
      ensures offset > fru.size ==> rc == -1 && buf[..] == old(buf[..]) && dev.served == old(dev.served)
                                    && dev.asked == old(dev.asked) && rqstSize == old(rqstSize)
      ensures offset <= fru.size ==>
        var len := Clipped(offset, length, fru.size);
        var before := if offset + length > fru.size then Splice(old(buf[..]), fru.size, Zeros(length - fru.size)) else old(buf[..]);
        var max := if fru.access && old(rqstSize) > 16 then 16 else old(rqstSize);
        && o == ReadRun(Reading(dev.mem, fru.access, offset + len, true, dev.script), offset, max, old(dev.served))
        && rc == o.rc && offset + n == o.off && rqstSize == o.max && dev.served == o.served
        && dev.asked == old(dev.asked) + Wire(o.log)
        && ReadPrefix(dev.mem, Base(fru.access, offset), before, buf[..], n)
        && |o.log| <= len + 1 + SectionShrinks(max)
        && (max >= 1 ==> |o.log| <= len + max + 1)
        && AskedInside(o.log, Base(fru.access, offset), offset + len, 0xff)
        && LogIs(Reading(dev.mem, fru.access, if offset + length > fru.size then fru.size else offset + length, true, dev.script),
                 offset, max, old(dev.served), o)
    {
      hide ReadRun, ReadPrefix, AskedInside, Splice, LogIs;
      n := 0;
      o := Outcome(-1, offset, rqstSize, dev.served, [], 0);
      if offset > fru.size {
        return -1, n, o;
      }
      var finish := offset + length;
      if finish > fru.size {
        Memzero(buf, fru.size, length - fru.size);
        finish := fru.size;
      }
      if fru.access && rqstSize > 16 {
        rqstSize := 16;
      }
      ghost var c := Reading(dev.mem, fru.access, finish, true, dev.script);
      RequestsCounted(c, offset, rqstSize, dev.served);
      RequestsInside(c, offset, rqstSize, dev.served);
      SectionRetries(c, offset, rqstSize, dev.served);
      ReadLog(c, offset, rqstSize, dev.served);
      rc, n, o := ReadLoop(dev, fru.access, offset, finish, buf);
    }

    method ReadLoop(dev: ReadDevice, words: bool, offset: nat, finish: nat, buf: array<byte>)
      returns (rc: int, ghost n: nat, ghost o: Outcome)
      requires dev.words == words && dev.served <= |dev.script| && rqstSize < 0x1_0000_0000
      requires offset <= finish < 0x1_0000 && finish - offset <= buf.Length
      modifies this, dev, buf
      ensures rqstSize < 0x1_0000_0000
      ensures o == ReadRun(Reading(dev.mem, words, finish, true, dev.script), offset, old(rqstSize), old(dev.served))
      ensures rc == o.rc && offset + n == o.off && rqstSize == o.max && dev.served == o.served
      ensures dev.asked == old(dev.asked) + Wire(o.log)
      ensures ReadPrefix(dev.mem, Base(words, offset), old(buf[..]), buf[..], n)
    {
      hide ReadPrefix, Base, FetchOf, AfterError, ReadRun, RequestOf, Wire;
      ghost var before, asked0 := buf[..], dev.asked;
      var c := Reading(dev.mem, words, finish, true, dev.script);
      ghost var log, retries := [], 0;
      o := ReadRun(c, offset, rqstSize, dev.served);
      RunStarts(o);
      ReadNothing(c.mem, Base(c.words, offset), before);
      var off, more := offset, true;
      n := 0;
      while more
        invariant dev.served <= |dev.script| && offset <= off <= finish && rqstSize < 0x1_0000_0000
        invariant n == off - offset && Base(c.words, off) == Base(c.words, offset) + n
        invariant ReadPrefix(c.mem, Base(c.words, offset), before, buf[..], n)
        invariant o == After(log, retries, if more then ReadRun(c, off, rqstSize, dev.served) else LoopEnd(c, off, rqstSize, dev.served))
        invariant dev.asked == asked0 + Wire(log)
        decreases more, |dev.script| - dev.served
      {
        RunStep(c, off, rqstSize, dev.served, o, log, retries);
        WireMore(asked0, log, RequestOf(c, off, rqstSize, dev.served));
        log := log + [RequestOf(c, off, rqstSize, dev.served)];
        var r := Fetch(dev, c, offset, off, rqstSize, buf, before);
        match r {
          case Quiet =>
            more := false;
          case Refused(cc) =>
            more := Shrink(cc);
            retries := retries + if more then 1 else 0;
            more := more && off < finish;
          case Bad =>
            return -1, n, o;
          case Got(got) =>
            off, n := off + got, n + got;
            if got == 0 && off < finish {
              return 0, n, o;
            }
            more := off < finish;
        }
      }
      rc := if off < finish then -1 else 0;
    }
  }
}
