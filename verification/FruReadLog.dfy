// The requests of the chunked readers one by one: how much each of them asks for, what its
// answer makes of the next, why the last one is the last, and how many an obedient device
// needs.
module FruReadLog {
  import opened Bytes
  import opened FruReadRun

  // A request asks for what is left up to the end or, if that is less, for the size in
  // force; the count has eight bits. A word device is asked at the even offset below.
  ghost predicate Asks(c: Reading, r: ReadRequest) {
    && r.off <= c.finish
    && r.at == (if c.words then r.off - r.off % 2 else r.off)
    && (Min(c.finish - r.off, r.max) < 0x100 ==> r.count == Min(c.finish - r.off, r.max))
    && r.count == Min(c.finish - r.off, r.max) % 0x100
  }

  // The bytes a reply counts, in words on a word device.
  ghost function Counted(c: Reading, r: ReadRequest): nat
    requires r.answer.Piece?
  {
    if c.words then 2 * r.answer.claim as int else r.answer.claim
  }

  // A reply is used when the bytes it counts were all received and all wanted. It has no
  // more true bytes than the device has from there on.
  ghost predicate Used(c: Reading, r: ReadRequest) {
    r.answer.Piece? && Counted(c, r) <= c.finish - r.off && Counted(c, r) <= r.answer.given
    && (Counted(c, r) > 0 ==> r.at + Counted(c, r) <= |c.mem|)
  }

  ghost predicate TooMuch(r: ReadRequest) {
    r.answer.Error? && (r.answer.cc == 0xc7 || r.answer.cc == 0xc8 || r.answer.cc == 0xca)
  }

  // The size after C7h, C8h or CAh: read_fru_area takes eight from a size above 32 and
  // one from a size above 8, the section reader one from any size, of 32 bits.
  ghost function Lowered(c: Reading, r: ReadRequest): int {
    if c.section then if r.max == 0 then 0xffff_ffff else (r.max - 1) % 0x1_0000_0000
    else if r.max > 32 then r.max - 8 else if r.max > 8 then r.max - 1 else r.max
  }

  ghost predicate Retries(c: Reading, r: ReadRequest) {
    TooMuch(r) && if c.section then Lowered(c, r) > 8 else r.max > 8
  }

  // What an answer makes of offset and size, if there is a next request.
  ghost predicate Leads(c: Reading, r: ReadRequest, off: nat, max: nat) {
    && off < c.finish
    && if Retries(c, r) then off == r.off && max == Lowered(c, r)
       else Used(c, r) && 0 < Counted(c, r) && off == r.off + Counted(c, r) && max == r.max
  }

  // How a call ends: 0 when everything was read or the reply carried nothing, -1 when
  // there was no reply, another error, a size that could not be lowered, or a reply that
  // cannot be used.
  ghost predicate Ends(c: Reading, r: ReadRequest, o: Outcome) {
    if Used(c, r) then
      && o.off == r.off + Counted(c, r) && o.max == r.max && o.rc == 0
      && (o.off == c.finish || Counted(c, r) == 0)
    else
      && o.off == r.off && o.max == (if TooMuch(r) then Lowered(c, r) else r.max)
      && o.rc == (if (r.answer.Silent? || r.answer.Error?) && r.off == c.finish then 0 else -1)
      && (Retries(c, r) ==> r.off == c.finish)
  }

  ghost predicate LeadsOn(c: Reading, r: ReadRequest, next: ReadRequest) {
    Leads(c, r, next.off, next.max)
  }

  // The log of a read that starts at off with request size max: the answers are those of
  // the device from number `served` on, and silence behind them.
  ghost predicate LogIs(c: Reading, off: nat, max: nat, served: nat, o: Outcome) {
    && o.log != [] && o.log[0].off == off && o.log[0].max == max
    && (forall k :: 0 <= k < |o.log| ==> Asks(c, o.log[k]))
    && (forall k :: 0 <= k < |o.log| ==>
          o.log[k].answer == if served + k < |c.script| then c.script[served + k] else Silent)
    && (forall k :: 0 <= k < |o.log| - 1 ==> LeadsOn(c, o.log[k], o.log[k + 1]))
    && Ends(c, o.log[|o.log| - 1], o)
  }

  lemma FetchedIs(c: Reading, off: nat, max: nat, served: nat)
    requires off <= c.finish
    ensures var r, f := RequestOf(c, off, max, served), FetchOf(c.mem, c.words, off, c.finish, AnswerAt(c.script, served));
      && Asks(c, r) && r.off == off && r.max == max && r.answer == AnswerAt(c.script, served)
      && (f.Quiet? <==> r.answer.Silent?)
      && (f.Refused? ==> r.answer == Error(f.cc)) && (r.answer.Error? ==> f.Refused?)
      && (f.Got? <==> Used(c, r)) && (f.Got? ==> f.got == Counted(c, r))
  {
  }

  lemma ErrorIs(c: Reading, r: ReadRequest)
    requires r.answer.Error? && r.max < 0x1_0000_0000
    ensures var (again, m) := AfterError(c.section, r.answer.cc, r.max);
      (again <==> Retries(c, r)) && m == if TooMuch(r) then Lowered(c, r) else r.max
  {
  }

  // For every device, every reader and every size, the log of the read is as above.
  lemma {:induction false} ReadLog(c: Reading, off: nat, max: nat, served: nat)
    requires off <= c.finish && served <= |c.script| && max < 0x1_0000_0000
    ensures LogIs(c, off, max, served, ReadRun(c, off, max, served))
    decreases |c.script| - served
  {
    hide FetchOf, RequestOf, AfterError, Asks, Used, Counted, Lowered, TooMuch;
    var next, r, o := Min(served + 1, |c.script|), RequestOf(c, off, max, served), ReadRun(c, off, max, served);
    FetchedIs(c, off, max, served);
    match FetchOf(c.mem, c.words, off, c.finish, AnswerAt(c.script, served))
    case Quiet => NotUsed(c, r);
    case Refused(cc) =>
      ErrorIs(c, r);
      NotUsed(c, r);
      var (again, m) := AfterError(c.section, cc, max);
      if again && off < c.finish {
        LoweredSize(c, r);
        ReadLog(c, off, m, next);
        Prepended(c, r, served, next, off, m, o, ReadRun(c, off, m, next));
      }
    case Bad => NotUsed(c, r);
    case Got(got) =>
      if off + got < c.finish && got > 0 {
        UsedIsNoRetry(c, r);
        ReadLog(c, off + got, max, next);
        Prepended(c, r, served, next, off + got, max, o, ReadRun(c, off + got, max, next));
      }
  }

  lemma NotUsed(c: Reading, r: ReadRequest)
    ensures !r.answer.Piece? ==> !Used(c, r)
    ensures !r.answer.Error? ==> !TooMuch(r)
  {
  }

  lemma UsedIsNoRetry(c: Reading, r: ReadRequest)
    requires Used(c, r)
    ensures !TooMuch(r)
  {
  }

  lemma LoweredSize(c: Reading, r: ReadRequest)
    requires r.max < 0x1_0000_0000
    ensures 0 <= Lowered(c, r) < 0x1_0000_0000
  {
  }

  lemma Prepended(c: Reading, r: ReadRequest, served: nat, next: nat, off: nat, max: nat, o: Outcome, rest: Outcome)
    requires LogIs(c, off, max, next, rest) && Leads(c, r, off, max) && Asks(c, r)
    requires served <= |c.script| && next == Min(served + 1, |c.script|)
    requires r.answer == AnswerAt(c.script, served) && r.answer != Silent
    requires o.log == [r] + rest.log && o.off == rest.off && o.max == rest.max && o.rc == rest.rc
    ensures LogIs(c, r.off, r.max, served, o)
  {
    hide Asks, Leads, Used, Counted, TooMuch, Lowered;
    assert next == served + 1;
    assert forall k :: 1 <= k < |o.log| ==> o.log[k] == rest.log[k - 1];
    forall k | 0 <= k < |o.log| - 1 ensures LeadsOn(c, o.log[k], o.log[k + 1]) {
      if k > 0 { assert LeadsOn(c, rest.log[k - 1], rest.log[k]); }
    }
  }

  // ---- a device that does what it is asked ----

  // Every reply carries exactly the bytes its request asked for.
  ghost predicate Obeyed(log: seq<ReadRequest>) {
    forall k :: 0 <= k < |log| ==> log[k].answer == Piece(log[k].count, log[k].count)
  }

  // n bytes in pieces of max, the last one smaller.
  function Pieces(n: nat, max: nat): nat
    requires max >= 1
  {
    (n + max - 1) / max
  }

  function Before(k: nat, max: nat): nat {
    k * max
  }

  // From such a byte device n bytes are read with size m in n / m requests, rounded up:
  // each asks for m bytes behind those before, the last one for the rest.
  lemma {:induction false} ObeyedRead(c: Reading, off: nat, max: nat, served: nat)
    requires off < c.finish <= |c.mem| && served <= |c.script| && !c.words && 1 <= max < 0x100
    requires Obeyed(ReadRun(c, off, max, served).log)
    ensures var o, n := ReadRun(c, off, max, served), c.finish - off;
      && o.rc == 0 && o.off == c.finish && |o.log| == Pieces(n, max)
      && forall k :: 0 <= k < |o.log| ==> o.log[k].at == off + Before(k, max) && o.log[k].count as int == Min(max, n - Before(k, max))
    decreases c.finish - off
  {
    hide ReadRun, Pieces, Before, Obeyed;
    var o, n, got, next := ReadRun(c, off, max, served), c.finish - off, Min(max, c.finish - off), Min(served + 1, |c.script|);
    FirstObeyed(c, off, max, served);
    NoneBefore(max);
    if off + got < c.finish {
      ObeyedRead(c, off + got, max, next);
      OneMore(n, max);
      var rest := ReadRun(c, off + got, max, next);
      forall k | 1 <= k < |o.log|
        ensures o.log[k].at == off + Before(k, max) && o.log[k].count as int == Min(max, n - Before(k, max))
      {
        assert o.log[k] == rest.log[k - 1];
        OneLess(k, max);
      }
    } else {
      OnlyOne(n, max);
    }
  }

  // A request for got bytes that is answered with them.
  lemma OnePiece(c: Reading, off: nat, max: nat, served: nat, got: nat)
    requires off < c.finish <= |c.mem| && served <= |c.script| && !c.words && 1 <= max < 0x100 && got == Min(max, c.finish - off)
    requires AnswerAt(c.script, served) == Piece(got, got)
    ensures var o, next, r := ReadRun(c, off, max, served), served + 1, RequestOf(c, off, max, served);
      && r.at == off && r.count as int == got && r.answer == Piece(got, got) && served < |c.script|
      && if off + got < c.finish then
           var rest := ReadRun(c, off + got, max, next);
           o.log == [r] + rest.log && o.rc == rest.rc && o.off == rest.off
         else o.rc == 0 && o.off == c.finish && o.log == [r]
  {
  }

  lemma FirstAnswer(c: Reading, off: nat, max: nat, served: nat)
    requires off < c.finish && served <= |c.script| && 1 <= max < 0x100
    ensures var o := ReadRun(c, off, max, served);
      o.log != [] && o.log[0].answer == AnswerAt(c.script, served) && o.log[0].count as int == Min(max, c.finish - off)
  {
  }

  lemma FirstObeyed(c: Reading, off: nat, max: nat, served: nat)
    requires off < c.finish <= |c.mem| && served <= |c.script| && !c.words && 1 <= max < 0x100
    requires Obeyed(ReadRun(c, off, max, served).log)
    ensures var o, got, next := ReadRun(c, off, max, served), Min(max, c.finish - off), Min(served + 1, |c.script|);
      && o.log != [] && o.log[0].at == off && o.log[0].count as int == got
      && if off + got < c.finish then
           var rest := ReadRun(c, off + got, max, next);
           o.log == [o.log[0]] + rest.log && o.rc == rest.rc && o.off == rest.off && Obeyed(rest.log)
         else o.rc == 0 && o.off == c.finish && |o.log| == 1
  {
    hide ReadRun;
    var o, got := ReadRun(c, off, max, served), Min(max, c.finish - off);
    FirstAnswer(c, off, max, served);
    OnePiece(c, off, max, served, got);
    if off + got < c.finish {
      var rest := ReadRun(c, off + got, max, served + 1);
      assert forall k :: 0 <= k < |rest.log| ==> rest.log[k] == o.log[k + 1];
    }
  }

  lemma OneMore(n: nat, max: nat)
    requires 1 <= max < n
    ensures Pieces(n, max) == 1 + Pieces(n - max, max)
  {
    var a := n - 1;
    var q, r := a / max, a % max;
    assert a + max == max * (q + 1) + r;
    Quotient(a + max, max, q + 1, r);
  }

  lemma Quotient(a: nat, d: nat, q: nat, r: nat)
    requires r < d && a == d * q + r
    ensures a / d == q
  {
    var e := a / d - q;
    assert a == d * (a / d) + a % d && d * (a / d) == d * q + d * e;
  }

  lemma OnlyOne(n: nat, max: nat)
    requires 1 <= n <= max
    ensures Pieces(n, max) == 1
  {
    Quotient(n + max - 1, max, 1, n - 1);
  }

  lemma NoneBefore(max: nat)
    ensures Before(0, max) == 0
  {
  }

  lemma OneLess(k: nat, max: nat)
    requires k > 0
    ensures Before(k, max) == max + Before(k - 1, max)
  {
  }

  // There is such a device for every range.
  function ObedientScript(n: nat, max: nat): (s: seq<ReadAnswer>)
    requires 1 <= max < 0x100
  {
    if n == 0 then [] else [Piece(Min(max, n), Min(max, n))] + ObedientScript(n - Min(max, n), max)
  }

  lemma {:induction false} ObedientScriptIsObeyed(c: Reading, off: nat, max: nat, served: nat)
    requires off < c.finish <= |c.mem| && served <= |c.script| && !c.words && 1 <= max < 0x100
    requires c.script[served..] == ObedientScript(c.finish - off, max)
    ensures Obeyed(ReadRun(c, off, max, served).log)
    decreases c.finish - off
  {
    hide ReadRun;
    var got := Min(max, c.finish - off);
    ScriptStarts(c.finish - off, max);
    assert c.script[served] == c.script[served..][0];
    assert c.script[served + 1..] == c.script[served..][1..];
    OnePiece(c, off, max, served, got);
    if off + got < c.finish {
      ObedientScriptIsObeyed(c, off + got, max, served + 1);
      var o, rest := ReadRun(c, off, max, served), ReadRun(c, off + got, max, served + 1);
      assert forall k :: 1 <= k < |o.log| ==> o.log[k] == rest.log[k - 1];
    }
  }

  lemma ScriptStarts(n: nat, max: nat)
    requires n > 0 && 1 <= max < 0x100
    ensures var got, s := Min(max, n), ObedientScript(n, max);
      s != [] && s[0] == Piece(got, got) && s[1..] == ObedientScript(n - got, max)
  {
  }
}
