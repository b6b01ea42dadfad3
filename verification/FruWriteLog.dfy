// The requests of write_fru_area one by one: what each of them asks for, what its answer
// makes of the next, and why the last one is the last.
module FruWriteLog {
  import opened Bytes
  import opened FruDevice
  import opened FruWrite

  // Bloc b is the first that ends behind the cursor.
  ghost predicate FirstBehind(ends: seq<nat>, b: nat, dst: nat) {
    b < |ends| && dst < ends[b] && forall i :: 0 <= i < b ==> ends[i] <= dst
  }

  // The stretch of a request ends where that bloc ends, or with the call, and the request
  // takes as much of it as the size in force allows, in whole words on a word device.
  ghost predicate Exact(c: Config, r: Request) {
    && (forall b: nat :: FirstBehind(c.ends, b, r.dst) ==> r.end == Min(c.ends[b], c.finish))
    && ((forall b :: 0 <= b < |c.ends| ==> c.ends[b] <= r.dst) ==> r.end == c.finish)
    && r.dst <= r.end
    && var n := Min(r.end - r.dst, r.max); r.len == if c.words then n - n % 2 else n
  }

  // What an answer makes of cursors and size: C7h, C8h and CAh lower the size by eight
  // and leave the cursors, 80h passes the stretch, 00h the bytes sent.
  ghost predicate Leads(r: Request, dst: nat, src: nat, max: nat) {
    match r.answer
    case NoResponse => false
    case Ccode(cc) =>
      if cc == 0xc7 || cc == 0xc8 || cc == 0xca then r.max > 32 && max == r.max - 8 && dst == r.dst && src == r.src
      else if cc == 0x80 then max == r.max && dst == r.end && src - r.src == dst - r.dst
      else cc == 0x00 && max == r.max && dst == r.dst + r.len && src - r.src == r.len
  }

  // Silence, any other code, and a size that is too big although it is 32 or less: the
  // call gives up.
  ghost predicate GivesUp(r: Request) {
    match r.answer
    case NoResponse => true
    case Ccode(cc) =>
      if cc == 0xc7 || cc == 0xc8 || cc == 0xca then r.max <= 32 else cc != 0x80 && cc != 0x00
  }

  // The log of a run: it starts with the given cursors and size, the answers are those of
  // the device, in order, and silence behind them; every request leads to the next, short
  // of the end of the call, and the last one gives up or leads to the end.
  ghost predicate LogIs(c: Config, dst: nat, src: nat, max: nat, answers: seq<WriteAnswer>, t: Trace) {
    var log := t.log;
    && log != [] && log[0].dst == dst && log[0].src == src && log[0].max == max
    && (forall k :: 0 <= k < |log| ==> Exact(c, log[k]))
    && (forall k :: 0 <= k < |log| ==> log[k].answer == if k < |answers| then answers[k] else NoResponse)
    && (forall k :: 0 <= k < |log| - 1 ==> LeadsOn(c, log[k], log[k + 1]))
    && var last := log[|log| - 1];
       if GivesUp(last) then t.final.dst == last.dst && t.final.max == last.max
       else t.final.dst >= c.finish && Leads(last, t.final.dst, t.final.src, t.final.max)
  }

  ghost predicate LeadsOn(c: Config, r: Request, next: Request) {
    Leads(r, next.dst, next.src, next.max) && next.dst < c.finish
  }

  // The bloc cursor has passed only blocs that end before the destination cursor.
  ghost predicate Passed(c: Config, s: State)
    requires s.bloc <= |c.ends|
  {
    forall i :: 0 <= i < s.bloc ==> c.ends[i] <= s.dst
  }

  lemma StepExact(c: Config, s: State, a: WriteAnswer)
    requires Inv(c, s) && Passed(c, s)
    ensures var r, n := RequestOf(c, s, a), Step(c, s, a);
      && Exact(c, r) && r.dst == s.dst && r.src == s.src && r.max == s.max && r.answer == a
      && (n.Go? <==> !GivesUp(r)) && Passed(c, n.s)
      && if n.Go? then Leads(r, n.s.dst, n.s.src, n.s.max) else n.s.dst == s.dst && n.s.max == s.max
  {
    var b := BlocAt(c.ends, s.bloc, s.dst);
    assert forall e: nat :: FirstBehind(c.ends, e, s.dst) ==> e == b;
  }

  // For every device and every answer, the log of the run is as above.
  lemma {:induction false} RunLog(c: Config, s: State, answers: seq<WriteAnswer>)
    requires Inv(c, s) && Passed(c, s)
    ensures LogIs(c, s.dst, s.src, s.max, answers, Run(c, s, answers))
    decreases |answers|
  {
    hide Step, RequestOf, Exact, Leads, GivesUp, Passed;
    var a := AnswerAt(answers);
    StepExact(c, s, a);
    var r, n, t := RequestOf(c, s, a), Step(c, s, a), Run(c, s, answers);
    if n.Go? && n.s.dst < c.finish {
      RunLog(c, n.s, answers[1..]);
      var rest := Run(c, n.s, answers[1..]).log;
      assert t.log == [r] + rest;
      assert forall k :: 1 <= k < |t.log| ==> t.log[k] == rest[k - 1];
      assert forall k :: 1 <= k < |answers| ==> answers[k] == answers[1..][k - 1];
      forall k | 0 <= k < |t.log| - 1 ensures LeadsOn(c, t.log[k], t.log[k + 1]) {
        if k > 0 { assert LeadsOn(c, rest[k - 1], rest[k]); }
      }
    }
  }

  // No request is longer than the size the call started with, which is never exceeded.
  lemma {:induction false} LogSizes(c: Config, dst: nat, src: nat, max: nat, answers: seq<WriteAnswer>, t: Trace, k: nat)
    requires LogIs(c, dst, src, max, answers, t) && k < |t.log|
    ensures t.log[k].len <= t.log[k].max <= max
    decreases k
  {
    assert Exact(c, t.log[k]);
    if k > 0 {
      LogSizes(c, dst, src, max, answers, t, k - 1);
      assert LeadsOn(c, t.log[k - 1], t.log[k - 1 + 1]);
    }
  }
}
