// What the chunked readers do against a device, as a run over its answers: which requests
// are sent, how far a read comes, what it returns and what becomes of the request size
// (read_fru_area and read_fru_area_section in lib/ipmi_fru.c).
module FruReadRun {
  import opened Bytes
  import opened FruDevice

  // ---- a device that never lies about its content ----

  type errorCode = x: int | 1 <= x < 256 witness 1

  // One entry of a device's script: silence, an error, a reply without a count byte, or
  // a count byte of any value followed by up to `given` true bytes.
  datatype ReadAnswer = Silent | Error(cc: errorCode) | Bare | Piece(claim: byte, given: nat)

  // The response as received.
  datatype Response = NoReply | Failed(cc: errorCode) | Data(count: byte, dataLen: nat, payload: seq<byte>)

  function TrueBytes(mem: seq<byte>, at: nat, n: nat): (s: seq<byte>)
    ensures |s| <= n && (s != [] ==> at + |s| <= |mem| && s == mem[at..at + |s|])
  {
    if at >= |mem| then [] else mem[at..Min(at + n, |mem|)]
  }

  function Respond(mem: seq<byte>, at: nat, a: ReadAnswer): Response {
    match a
    case Silent => NoReply
    case Error(cc) => Failed(cc)
    case Bare => Data(0, 0, [])
    case Piece(claim, given) =>
      var p := TrueBytes(mem, at, given);
      Data(claim, 1 + |p|, p)
  }

  // The answer to request number i of a script; silence once it is used up.
  function AnswerAt(script: seq<ReadAnswer>, i: nat): ReadAnswer {
    if i < |script| then script[i] else Silent
  }

  // The bytes a reply carries by its own count, doubled for a word device.
  function Carried(words: bool, count: byte): nat {
    if words then 2 * count as int else count as int
  }

  // What one request brings: no reply, an error, an unusable reply, or got bytes.
  datatype Fetched = Quiet | Refused(cc: errorCode) | Bad | Got(got: nat)

  // A reply is usable when the count it carries covers neither more than was received nor
  // more than is still wanted.
  function Judge(rsp: Response, words: bool, left: nat): (r: Fetched)
    ensures r.Got? ==> r.got <= left
  {
    match rsp
    case NoReply => Quiet
    case Failed(cc) => Refused(cc)
    case Data(count, dataLen, _) =>
      var tmp := Carried(words, count);
      if dataLen < 1 || tmp > dataLen - 1 || tmp > left then Bad else Got(tmp)
  }

  function FetchOf(mem: seq<byte>, words: bool, off: nat, finish: nat, a: ReadAnswer): (r: Fetched)
    requires off <= finish
    ensures r.Got? ==> off + r.got <= finish
    ensures a == Silent ==> r == Quiet
  {
    Judge(Respond(mem, Base(words, off), a), words, finish - off)
  }

  // ---- adaptive request size ----

  // One reduction after "too big": eight bytes above 32, one byte down to 8.
  function Reduce(max: nat): nat {
    if max > FRU_AREA_MAXIMUM_BLOCK_SZ then max - FRU_BLOCK_SZ else if max > FRU_BLOCK_SZ then max - 1 else max
  }

  // How many reductions are left.
  function ReadShrinks(max: nat): nat {
    if max > FRU_BLOCK_SZ then 1 + ReadShrinks(Reduce(max)) else 0
  }

  lemma {:induction false} ReadShrinksSmall(max: nat)
    requires 8 <= max <= 32
    ensures ReadShrinks(max) == max - 8
  {
    if max > 8 { ReadShrinksSmall(max - 1); }
  }

  lemma {:induction false} ReadShrinksLarge(r: nat, k: nat)
    requires 25 <= r <= 32
    ensures ReadShrinks(r + 8 * k) == k + r - 8
    decreases k
  {
    if k == 0 {
      ReadShrinksSmall(r);
    } else {
      assert Reduce(r + 8 * k) == r + 8 * (k - 1);
      ReadShrinksLarge(r, k - 1);
    }
  }

  // A request size starts at 255 or less, so a device can force at most 51 reductions,
  // and from 255 it can force exactly that many.
  lemma AtMost51Reductions(max: nat)
    requires max < 0x100
    ensures ReadShrinks(max) <= 51 && ReadShrinks(255) == 51
  {
    ReadShrinksLarge(31, 28);
    if max > 32 {
      var k := (max - 25) / 8;
      ReadShrinksLarge(max - 8 * k, k);
    } else if max >= 8 {
      ReadShrinksSmall(max);
    }
  }

  // How often the section reader can be made to try again. Its size has 32 bits and is
  // reduced before it is compared, so 0 wraps.
  function SectionShrinks(max: nat): nat {
    if max == 0 then 0x1_0000_0000 - 1 - FRU_BLOCK_SZ else if max > FRU_BLOCK_SZ + 1 then max - FRU_BLOCK_SZ - 1 else 0
  }

  // Whether to try again after an error, and the request size from then on.
  function AfterError(section: bool, cc: errorCode, max: nat): (bool, nat) {
    if !TooBig(cc) then (false, max)
    else if section then
      var m := (max - 1) % 0x1_0000_0000;
      (m > FRU_BLOCK_SZ, m)
    else (max > FRU_BLOCK_SZ, Reduce(max))
  }

  // The count byte of a request.
  function CountOf(max: nat, left: nat): byte {
    (if left > max then max else left) % 0x100
  }

  // ---- a read as a run ----

  // What stays fixed during one call; `section` selects the size rule of
  // read_fru_area_section.
  datatype Reading = Reading(mem: seq<byte>, words: bool, finish: nat, section: bool, script: seq<ReadAnswer>)

  // A request as sent, address and count, with the offset and the request size in force
  // when it was sent, and the answer it got.
  datatype ReadRequest = ReadRequest(at: nat, count: byte, off: nat, max: nat, answer: ReadAnswer)

  // What a device sees of the requests.
  function Wire(log: seq<ReadRequest>): (w: seq<(nat, nat)>)
    ensures |w| == |log|
    ensures forall k :: 0 <= k < |log| ==> w[k] == (log[k].at, log[k].count as nat)
  {
    seq(|log|, k requires 0 <= k < |log| => (log[k].at, log[k].count as nat))
  }

  // The result, how far the call came, the request size it leaves, the answers used, the
  // requests, and how many of them were followed by another with a smaller size.
  datatype Outcome = Outcome(rc: int, off: nat, max: nat, served: nat, log: seq<ReadRequest>, retries: nat)

  function LoopEnd(c: Reading, off: nat, max: nat, served: nat): Outcome {
    Outcome(if off < c.finish then -1 else 0, off, max, served, [], 0)
  }

  // An outcome with what was sent before it.
  function After(log: seq<ReadRequest>, retries: nat, o: Outcome): Outcome {
    o.(log := log + o.log, retries := retries + o.retries)
  }

  function RequestOf(c: Reading, off: nat, max: nat, served: nat): ReadRequest
    requires off <= c.finish
  {
    ReadRequest(Base(c.words, off), CountOf(max, c.finish - off), off, max, AnswerAt(c.script, served))
  }

  // From off on, with request size max, after `served` answers.
  function ReadRun(c: Reading, off: nat, max: nat, served: nat): (o: Outcome)
    requires off <= c.finish && served <= |c.script|
    ensures off <= o.off <= c.finish && served <= o.served <= |c.script|
    decreases |c.script| - served
  {
    var next := Min(served + 1, |c.script|);
    var req := [RequestOf(c, off, max, served)];
    match FetchOf(c.mem, c.words, off, c.finish, AnswerAt(c.script, served))
    case Quiet => After(req, 0, LoopEnd(c, off, max, next))
    case Refused(cc) =>
      var (again, m) := AfterError(c.section, cc, max);
      var retries := if again then 1 else 0;
      After(req, retries, if again && off < c.finish then ReadRun(c, off, m, next) else LoopEnd(c, off, m, next))
    case Bad => Outcome(-1, off, max, next, req, 0)
    case Got(got) =>
      if got == 0 && off < c.finish then Outcome(0, off, max, next, req, 0)
      else After(req, 0, if off + got < c.finish then ReadRun(c, off + got, max, next) else LoopEnd(c, off + got, max, next))
  }

  // Result 0 means the whole range was read, or the device's last answer was a reply
  // that carried nothing. Result -1 means that the answer to the last request was
  // silence, an error, or a reply with an impossible count.
  lemma {:induction false} ReadResults(c: Reading, off: nat, max: nat, served: nat)
    requires off <= c.finish && served <= |c.script|
    ensures var o := ReadRun(c, off, max, served);
      && (o.rc == 0 || o.rc == -1)
      && (o.rc == 0 ==> o.off == c.finish || (o.served > served && FetchOf(c.mem, c.words, o.off, c.finish, c.script[o.served - 1]) == Got(0)))
      && (o.rc == -1 ==>
            || (o.served == |c.script| && FetchOf(c.mem, c.words, o.off, c.finish, Silent) == Quiet)
            || (o.served > served && !FetchOf(c.mem, c.words, o.off, c.finish, c.script[o.served - 1]).Got?))
    decreases |c.script| - served
  {
    hide FetchOf, RequestOf;
    var next := Min(served + 1, |c.script|);
    match FetchOf(c.mem, c.words, off, c.finish, AnswerAt(c.script, served))
    case Quiet =>
    case Refused(cc) =>
      var (again, m) := AfterError(c.section, cc, max);
      if again && off < c.finish { ReadResults(c, off, m, next); }
    case Bad =>
    case Got(got) =>
      if off + got < c.finish && got > 0 { ReadResults(c, off + got, max, next); }
  }

  // Every request asks for bytes of the range, and read_fru_area for no more than its
  // request size.
  ghost predicate AskedInside(log: seq<ReadRequest>, from: nat, finish: nat, limit: nat) {
    forall k :: 0 <= k < |log| ==> from <= log[k].at && log[k].at + log[k].count <= finish && log[k].count <= limit
  }

  lemma {:induction false} RequestsInside(c: Reading, off: nat, max: nat, served: nat)
    requires off <= c.finish && served <= |c.script|
    ensures AskedInside(ReadRun(c, off, max, served).log, Base(c.words, off), c.finish, if c.section then 0xff else max)
    decreases |c.script| - served
  {
    hide FetchOf, AskedInside, Base, RequestOf;
    var next := Min(served + 1, |c.script|);
    OneInside(c, off, max, served);
    match FetchOf(c.mem, c.words, off, c.finish, AnswerAt(c.script, served))
    case Quiet =>
    case Refused(cc) =>
      var (again, m) := AfterError(c.section, cc, max);
      if again && off < c.finish {
        RequestsInside(c, off, m, next);
        MoreInside(c, off, max, served, ReadRun(c, off, m, next).log, off, m);
      }
    case Bad =>
    case Got(got) =>
      if off + got < c.finish && got > 0 {
        RequestsInside(c, off + got, max, next);
        MoreInside(c, off, max, served, ReadRun(c, off + got, max, next).log, off + got, max);
      }
  }

  lemma OneInside(c: Reading, off: nat, max: nat, served: nat)
    requires off <= c.finish
    ensures AskedInside([RequestOf(c, off, max, served)], Base(c.words, off), c.finish, if c.section then 0xff else max)
    ensures [RequestOf(c, off, max, served)] + [] == [RequestOf(c, off, max, served)]
  {
  }

  lemma MoreInside(c: Reading, off: nat, max: nat, served: nat, log: seq<ReadRequest>, off': nat, max': nat)
    requires off <= off' <= c.finish && (c.section || max' <= max)
    requires AskedInside(log, Base(c.words, off'), c.finish, if c.section then 0xff else max')
    ensures AskedInside([RequestOf(c, off, max, served)] + log, Base(c.words, off), c.finish, if c.section then 0xff else max)
  {
  }

  // A read sends one request, one more for every byte it gets at most, and one more for
  // every reduction.
  lemma {:induction false} RequestsCounted(c: Reading, off: nat, max: nat, served: nat)
    requires off <= c.finish && served <= |c.script|
    ensures var o := ReadRun(c, off, max, served); 1 <= |o.log| <= (o.off - off) + o.retries + 1
    decreases |c.script| - served
  {
    hide FetchOf, RequestOf, AfterError;
    var next := Min(served + 1, |c.script|);
    match FetchOf(c.mem, c.words, off, c.finish, AnswerAt(c.script, served))
    case Quiet =>
    case Refused(cc) =>
      var (again, m) := AfterError(c.section, cc, max);
      if again && off < c.finish { RequestsCounted(c, off, m, next); }
    case Bad =>
    case Got(got) =>
      if off + got < c.finish && got > 0 { RequestsCounted(c, off + got, max, next); }
  }

  // read_fru_area: the reductions of a call are exactly the ones its request size lost.
  lemma {:induction false} RetriesAreShrinks(c: Reading, off: nat, max: nat, served: nat)
    requires off <= c.finish && served <= |c.script| && !c.section
    ensures var o := ReadRun(c, off, max, served);
      o.max <= max && o.retries + ReadShrinks(o.max) == ReadShrinks(max) && (max > 0 ==> o.max > 0)
    decreases |c.script| - served
  {
    hide FetchOf, RequestOf;
    var next := Min(served + 1, |c.script|);
    match FetchOf(c.mem, c.words, off, c.finish, AnswerAt(c.script, served))
    case Quiet =>
    case Refused(cc) =>
      var (again, m) := AfterError(c.section, cc, max);
      if again && off < c.finish { RetriesAreShrinks(c, off, m, next); }
    case Bad =>
    case Got(got) =>
      if off + got < c.finish && got > 0 { RetriesAreShrinks(c, off + got, max, next); }
  }

  // read_fru_area_section: even a size that has wrapped gives a bound.
  lemma {:induction false} SectionRetries(c: Reading, off: nat, max: nat, served: nat)
    requires off <= c.finish && served <= |c.script| && c.section && max < 0x1_0000_0000
    ensures var o := ReadRun(c, off, max, served); o.max < 0x1_0000_0000 && o.retries <= SectionShrinks(max)
    decreases |c.script| - served
  {
    hide FetchOf, RequestOf;
    var next := Min(served + 1, |c.script|);
    match FetchOf(c.mem, c.words, off, c.finish, AnswerAt(c.script, served))
    case Quiet =>
    case Refused(cc) =>
      var (again, m) := AfterError(c.section, cc, max);
      if again && off < c.finish { SectionRetries(c, off, m, next); }
    case Bad =>
    case Got(got) =>
      if off + got < c.finish && got > 0 { SectionRetries(c, off + got, max, next); }
  }

  // ---- the section reader's stored size ----

  // A device that refuses n requests as too big.
  function Refusals(n: nat): (s: seq<ReadAnswer>)
    ensures |s| == n
  {
    seq(n, _ => Error(0xc7))
  }

  // No device makes a read of the range send more than bound requests.
  ghost predicate BoundsReads(words: bool, off: nat, finish: nat, max: nat, bound: nat)
    requires off <= finish
  {
    forall mem: seq<byte>, script: seq<ReadAnswer> ::
      |ReadRun(Reading(mem, words, finish, true, script), off, max, 0).log| <= bound
  }

  // For every stored size: length + size + 1 requests are enough for every device exactly
  // when the size is not 0 or nothing is to be read. From 0 the size wraps, and a device
  // can go on refusing.
  lemma SectionBoundedIff(words: bool, off: nat, finish: nat, max: nat)
    requires off <= finish < 0x1_0000 && max < 0x1_0000_0000
    ensures BoundsReads(words, off, finish, max, (finish - off) + max + 1) <==> max >= 1 || off == finish
  {
    if max >= 1 {
      forall mem: seq<byte>, script: seq<ReadAnswer>
        ensures |ReadRun(Reading(mem, words, finish, true, script), off, max, 0).log| <= (finish - off) + max + 1
      {
        RequestsCounted(Reading(mem, words, finish, true, script), off, max, 0);
        SectionRetries(Reading(mem, words, finish, true, script), off, max, 0);
      }
    } else if off == finish {
      forall mem: seq<byte>, script: seq<ReadAnswer>
        ensures |ReadRun(Reading(mem, words, finish, true, script), off, max, 0).log| <= (finish - off) + max + 1
      {
        EmptyRead(Reading(mem, words, finish, true, script), off, max, 0);
      }
    } else {
      var n := finish - off + 1;
      var c := Reading([], words, finish, true, Refusals(n));
      WrappedRun(c, off);
    }
  }

  lemma EmptyRead(c: Reading, off: nat, max: nat, served: nat)
    requires off == c.finish && served <= |c.script|
    ensures |ReadRun(c, off, max, served).log| == 1
  {
  }

  // A stored size of 0 is retried with 2^32 - 1: every refusal is followed by a request.
  lemma WrappedRun(c: Reading, off: nat)
    requires off < c.finish && c.section && 1 <= |c.script| < 0x1_0000_0000 - FRU_BLOCK_SZ && c.script == Refusals(|c.script|)
    ensures |ReadRun(c, off, 0, 0).log| == |c.script| + 1
  {
    RefusedRun(c, off, 0x1_0000_0000 - 1, 1);
  }

  lemma {:induction false} RefusedRun(c: Reading, off: nat, max: nat, served: nat)
    requires off < c.finish && c.section && c.script == Refusals(|c.script|) && served <= |c.script|
    requires FRU_BLOCK_SZ + 1 + |c.script| - served <= max < 0x1_0000_0000
    ensures |ReadRun(c, off, max, served).log| == |c.script| - served + 1
    decreases |c.script| - served
  {
    hide ReadRun;
    OneRefusal(c, off, max, served);
    if served < |c.script| {
      RefusedRun(c, off, max - 1, served + 1);
    }
  }

  // A refusal met by the section reader, and silence after the last one.
  lemma OneRefusal(c: Reading, off: nat, max: nat, served: nat)
    requires off <= c.finish && c.section && c.script == Refusals(|c.script|) && served <= |c.script|
    requires 1 <= max < 0x1_0000_0000
    ensures var next, req := Min(served + 1, |c.script|), [RequestOf(c, off, max, served)];
      var again := max - 1 > FRU_BLOCK_SZ;
      ReadRun(c, off, max, served)
      == if served == |c.script| then After(req, 0, LoopEnd(c, off, max, next))
         else After(req, if again then 1 else 0,
                    if again && off < c.finish then ReadRun(c, off, max - 1, next) else LoopEnd(c, off, max - 1, next))
  {
    hide RequestOf;
    if served < |c.script| {
      assert AnswerAt(c.script, served) == Error(0xc7);
      assert (max - 1) % 0x1_0000_0000 == max - 1;
    }
  }

  // The stored size after k calls to a device that refuses one request of each.
  function SizeAfter(words: bool, finish: nat, max: nat, k: nat): nat
  {
    if k == 0 then max else ReadRun(Reading([], words, finish, true, Refusals(1)), 0, SizeAfter(words, finish, max, k - 1), 0).max
  }

  // Such a device lowers the size by one in every call, so it brings any size to 0; from
  // there a read of one byte already sends three requests instead of two.
  lemma {:induction false} SizeReachesZero(words: bool, finish: nat, max: nat, k: nat)
    requires k <= max < 0x1_0000_0000
    ensures SizeAfter(words, finish, max, k) == max - k
  {
    if k > 0 {
      SizeReachesZero(words, finish, max, k - 1);
      hide ReadRun;
      var c := Reading([], words, finish, true, Refusals(1));
      OneRefusal(c, 0, max - k + 1, 0);
      if max - k > FRU_BLOCK_SZ {
        OneRefusal(c, 0, max - k, 1);
      }
    }
  }

  lemma ZeroSizeWraps()
    ensures SizeAfter(false, 1, 20, 20) == 0
    ensures |ReadRun(Reading([], false, 1, true, Refusals(2)), 0, 0, 0).log| == 3
  {
    SizeReachesZero(false, 1, 20, 20);
    WrappedRun(Reading([], false, 1, true, Refusals(2)), 0);
  }

  // ---- read_fru_area over its life ----

  // The read size chosen on the first use, from the largest response the interface takes.
  function InitialReadSize(max: byte, maxResponse: nat, words: bool): Option<byte>
    requires 1 <= maxResponse
  {
    if max != 0 then Some(max)
    else if maxResponse - 1 <= 1 then None
    else
      var n := if maxResponse - 2 > 255 then 255 else maxResponse - 2;
      Some(if words then n / 2 * 2 else n)
  }

  // The largest count a call asks for.
  function ReadLimit(max: byte, maxResponse: nat, words: bool): byte
    requires 1 <= maxResponse
  {
    var m := InitialReadSize(max, maxResponse, words);
    if m.Some? then m.value else 0
  }

  // The length that is left after clipping at the end of the device.
  function Clipped(offset: nat, length: nat, size: nat): nat
    requires offset <= size
  {
    if offset + length > size then size - offset else length
  }

  // One call of read_fru_area: the device it meets, from which answer on, the range, and
  // the largest response the interface takes.
  datatype Call = Call(mem: seq<byte>, script: seq<ReadAnswer>, served: nat, offset: nat, length: nat, maxResponse: nat)

  predicate CallOk(call: Call) {
    call.served <= |call.script| && call.maxResponse >= 1
  }

  // What the call does to a fru_info of the given size whose request size is max; 0 means
  // not chosen yet.
  function ReadCall(words: bool, size: nat, call: Call, max: byte): (o: Outcome)
    requires CallOk(call)
  {
    if call.offset > size || InitialReadSize(max, call.maxResponse, words).None? then Outcome(-1, call.offset, max, call.served, [], 0)
    else
      ReadRun(Reading(call.mem, words, call.offset + Clipped(call.offset, call.length, size), false, call.script),
              call.offset, InitialReadSize(max, call.maxResponse, words).value, call.served)
  }

  ghost predicate CallsOk(calls: seq<Call>) {
    forall i :: 0 <= i < |calls| ==> CallOk(calls[i])
  }

  // The size stays a byte.
  function SizeLeft(words: bool, size: nat, call: Call, max: byte): (m: byte)
    requires CallOk(call)
  {
    var o := ReadCall(words, size, call, max);
    if o.max < 0x100 then o.max else 0
  }

  // The outcomes of a sequence of calls on one fru_info, each with the size that the one
  // before it left.
  function Life(words: bool, size: nat, calls: seq<Call>, max: byte): (os: seq<Outcome>)
    requires CallsOk(calls)
    ensures |os| == |calls|
  {
    if calls == [] then []
    else [ReadCall(words, size, calls[0], max)] + Life(words, size, calls[1..], SizeLeft(words, size, calls[0], max))
  }

  function Retries(os: seq<Outcome>): nat {
    if os == [] then 0 else os[0].retries + Retries(os[1..])
  }

  function Requests(os: seq<Outcome>): nat {
    if os == [] then 0 else |os[0].log| + Requests(os[1..])
  }

  function LengthsAndOnes(calls: seq<Call>): nat {
    if calls == [] then 0 else calls[0].length + 1 + LengthsAndOnes(calls[1..])
  }

  // The reductions a fru_info still has in it.
  function Budget(max: byte): nat {
    if max == 0 then 51 else ReadShrinks(max)
  }

  lemma CallSpends(words: bool, size: nat, call: Call, max: byte)
    requires CallOk(call)
    ensures var o := ReadCall(words, size, call, max);
      && o.max < 0x100 && SizeLeft(words, size, call, max) == o.max
      && o.retries + Budget(o.max) <= Budget(max) && |o.log| <= call.length + 1 + o.retries
  {
    hide ReadRun, ReadShrinks;
    if call.offset <= size && InitialReadSize(max, call.maxResponse, words).Some? {
      var m := InitialReadSize(max, call.maxResponse, words).value;
      var c := Reading(call.mem, words, call.offset + Clipped(call.offset, call.length, size), false, call.script);
      RetriesAreShrinks(c, call.offset, m, call.served);
      RequestsCounted(c, call.offset, m, call.served);
      AtMost51Reductions(m);
      NoShrinks();
    }
  }

  lemma NoShrinks()
    ensures ReadShrinks(0) == 0
  {
  }

  // Over the whole life of a fru_info, for any calls to any devices: at most 51 requests
  // are refused and retried with a smaller size, and at most length + 1 requests are sent
  // for each call and 51 more for all of them.
  lemma {:induction false} LifetimeReductions(words: bool, size: nat, calls: seq<Call>, max: byte)
    requires CallsOk(calls)
    ensures var os := Life(words, size, calls, max);
      Retries(os) <= Budget(max) <= 51 && Requests(os) <= LengthsAndOnes(calls) + Retries(os)
  {
    hide ReadCall, SizeLeft, ReadShrinks;
    AtMost51Reductions(max);
    if calls != [] {
      CallSpends(words, size, calls[0], max);
      var os := Life(words, size, calls, max);
      LifetimeReductions(words, size, calls[1..], SizeLeft(words, size, calls[0], max));
      assert os[1..] == Life(words, size, calls[1..], SizeLeft(words, size, calls[0], max));
    }
  }

  // ---- what a read leaves in the buffer ----

  // The first n bytes of the buffer are the device's bytes from `from` on, the rest of
  // the buffer is as it was.
  ghost predicate ReadPrefix(mem: seq<byte>, from: nat, before: seq<byte>, after: seq<byte>, n: nat) {
    && |after| == |before| && n <= |before| && after[n..] == before[n..]
    && (n > 0 ==> from + n <= |mem| && after[..n] == mem[from..from + n])
  }

  lemma ReadNothing(mem: seq<byte>, from: nat, buf: seq<byte>)
    ensures ReadPrefix(mem, from, buf, buf, 0)
  {
  }

  lemma ReadMore(mem: seq<byte>, from: nat, before: seq<byte>, mid: seq<byte>, n: nat, p: seq<byte>)
    requires ReadPrefix(mem, from, before, mid, n)
    requires n + |p| <= |before| && (p != [] ==> from + n + |p| <= |mem| && p == mem[from + n..from + n + |p|])
    ensures ReadPrefix(mem, from, before, Splice(mid, n, p), n + |p|)
  {
    var after := Splice(mid, n, p);
    if p != [] {
      assert after[..n + |p|] == mid[..n] + p;
      assert mem[from..from + n + |p|] == mem[from..from + n] + mem[from + n..from + n + |p|];
    } else {
      assert after == mid;
    }
    assert after[n + |p|..] == mid[n..][|p|..];
  }

  // The read returned 0 and did not end with an empty reply.
  ghost predicate Completed(c: Reading, offset: nat, max: nat, served: nat)
    requires offset <= c.finish && served <= |c.script|
  {
    var o := ReadRun(c, offset, max, served);
    o.rc == 0 && !(o.served > served && FetchOf(c.mem, c.words, o.off, c.finish, c.script[o.served - 1]) == Got(0))
  }

  // Such a read has delivered the device's range byte for byte.
  lemma CompleteReadIsTheRange(c: Reading, offset: nat, max: nat, served: nat, before: seq<byte>, after: seq<byte>, n: nat)
    requires offset < c.finish && served <= |c.script|
    requires ReadRun(c, offset, max, served).off == offset + n && Completed(c, offset, max, served)
    requires ReadPrefix(c.mem, Base(c.words, offset), before, after, n)
    ensures var from, length := Base(c.words, offset), c.finish - offset;
      from + length <= |c.mem| && length <= |after| && after[..length] == c.mem[from..from + length]
  {
    hide FetchOf, RequestOf, ReadRun;
    ReadResults(c, offset, max, served);
  }

  // One read of a call: what it is about, how it starts, and the buffer before and after.
  datatype ReadOf = ReadOf(c: Reading, max: nat, served: nat, before: seq<byte>, after: seq<byte>)

  // The buffer is the one the run leaves, reading from offset on.
  ghost predicate Leaves(r: ReadOf, offset: nat) {
    && offset < r.c.finish && r.served <= |r.c.script|
    && var n := ReadRun(r.c, offset, r.max, r.served).off - offset;
       ReadPrefix(r.c.mem, Base(r.c.words, offset), r.before, r.after, n)
  }

  // Two reads of one range of one device, by the same reader or by one each, with any
  // request sizes and however the device cut its replies: the buffers agree as far as
  // both came, and on the whole range if both were completed.
  lemma CompleteReadsAgree(r1: ReadOf, r2: ReadOf, offset: nat)
    requires Leaves(r1, offset) && Leaves(r2, offset)
    requires r1.c.mem == r2.c.mem && r1.c.words == r2.c.words && r1.c.finish == r2.c.finish
    ensures var n := Min(ReadRun(r1.c, offset, r1.max, r1.served).off, ReadRun(r2.c, offset, r2.max, r2.served).off) - offset;
      n <= |r1.after| && n <= |r2.after| && r1.after[..n] == r2.after[..n]
    ensures Completed(r1.c, offset, r1.max, r1.served) && Completed(r2.c, offset, r2.max, r2.served) ==>
      var length := r1.c.finish - offset;
      length <= |r1.after| && length <= |r2.after| && r1.after[..length] == r2.after[..length]
  {
    hide ReadRun, Completed, ReadPrefix;
    var n1 := ReadRun(r1.c, offset, r1.max, r1.served).off - offset;
    var n2 := ReadRun(r2.c, offset, r2.max, r2.served).off - offset;
    var from := Base(r1.c.words, offset);
    if n1 <= n2 {
      PrefixesAgree(r1.c.mem, from, r1.before, r1.after, r2.before, r2.after, n1, n2);
    } else {
      PrefixesAgree(r1.c.mem, from, r2.before, r2.after, r1.before, r1.after, n2, n1);
    }
    if Completed(r1.c, offset, r1.max, r1.served) && Completed(r2.c, offset, r2.max, r2.served) {
      CompleteReadIsTheRange(r1.c, offset, r1.max, r1.served, r1.before, r1.after, n1);
      CompleteReadIsTheRange(r2.c, offset, r2.max, r2.served, r2.before, r2.after, n2);
    }
  }

  lemma PrefixesAgree(mem: seq<byte>, from: nat, b1: seq<byte>, a1: seq<byte>, b2: seq<byte>, a2: seq<byte>, n1: nat, n2: nat)
    requires ReadPrefix(mem, from, b1, a1, n1) && ReadPrefix(mem, from, b2, a2, n2) && n1 <= n2
    ensures n1 <= |a1| && n1 <= |a2| && a1[..n1] == a2[..n1]
  {
    if n1 > 0 {
      assert a2[..n1] == a2[..n2][..n1];
      assert mem[from..from + n1] == mem[from..from + n2][..n1];
    }
  }

  // Whatever the device holds, n bytes read from this offset are those of the range.
  ghost predicate AlwaysDelivers(words: bool, offset: nat, n: nat) {
    forall mem: seq<byte>, before: seq<byte>, after: seq<byte> ::
      ReadPrefix(mem, Base(words, offset), before, after, n) && offset + n <= |mem| ==> after[..n] == mem[offset..offset + n]
  }

  // That holds exactly for byte devices and even offsets.
  lemma OffsetIsRightIff(words: bool, offset: nat, n: nat)
    requires n > 0
    ensures AlwaysDelivers(words, offset, n) <==> !words || offset % 2 == 0
  {
    if words && offset % 2 == 1 {
      var mem: seq<byte> := seq(offset + n, i => if i == offset - 1 then 1 else 0);
      var after := mem[offset - 1..offset - 1 + n];
      assert ReadPrefix(mem, Base(words, offset), Zeros(n), after, n);
      assert after[..n][0] == 1 && mem[offset..offset + n][0] == 0;
    }
  }

  // Two bytes at offset 1 of a word device that holds 7, 8, 9: the read is complete and
  // successful, and delivers 7, 8.
  lemma OddOffsetShifts(before: seq<byte>, after: seq<byte>)
    requires ReadPrefix([7, 8, 9], Base(true, 1), before, after, 2)
    ensures var o := ReadRun(Reading([7, 8, 9], true, 3, false, [Piece(1, 2)]), 1, 16, 0); o.rc == 0 && o.off == 3
    ensures after[..2] == [7, 8] != [7, 8, 9][1..3]
  {
    assert [7, 8, 9][0..2] == [7, 8] && [7, 8, 9][1..3] == [8, 9];
  }
}
