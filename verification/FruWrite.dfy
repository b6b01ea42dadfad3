// The adaptive write loop: write_fru_area in lib/ipmi_fru.c.
module FruWrite {
  import opened Bytes
  import opened FruDevice

  // ---- the loop as a state machine driven by the device's answers ----

  // What stays fixed during one call: where it ends, where the blocs end, the source.
  datatype Config = Config(words: bool, finish: nat, ends: seq<nat>, src: seq<byte>)

  // doffset, soffset, max_write_size, the bloc cursor, and the device's content.
  datatype State = State(dst: nat, src: nat, max: nat, bloc: nat, mem: seq<byte>)

  // A request as sent: destination, source, length, the end of the stretch it belongs
  // to, and the answer it got.
  datatype Request = Request(dst: nat, src: nat, len: nat, end: nat, max: nat, answer: WriteAnswer)

  ghost predicate Inv(c: Config, s: State) {
    && s.dst <= c.finish <= |s.mem| && c.finish < 0x1_0000
    && s.src + (c.finish - s.dst) <= |c.src|
    && s.bloc <= |c.ends|
    && s.max < 0x100
  }

  // The first bloc from b on that ends behind dst.
  function BlocAt(ends: seq<nat>, b: nat, dst: nat): (r: nat)
    requires b <= |ends|
    ensures b <= r <= |ends|
    ensures r < |ends| ==> ends[r] > dst
    ensures forall i :: b <= i < r ==> ends[i] <= dst
    decreases |ends| - b
  {
    if b < |ends| && ends[b] <= dst then BlocAt(ends, b + 1, dst) else b
  }

  function EndOf(c: Config, b: nat): nat
    requires b <= |c.ends|
  {
    if b < |c.ends| && c.ends[b] < c.finish then c.ends[b] else c.finish
  }

  function WriteLength(c: Config, s: State, end: nat): nat
    requires s.dst <= end
  {
    var n := if end - s.dst > s.max then s.max else end - s.dst;
    if c.words then n / 2 * 2 else n
  }

  function RequestOf(c: Config, s: State, a: WriteAnswer): (r: Request)
    requires Inv(c, s)
    ensures r.dst == s.dst && r.src == s.src && r.dst + r.len <= r.end <= c.finish
    ensures Base(c.words, r.dst) + r.len <= |s.mem| && r.src + r.len <= |c.src|
  {
    var end := EndOf(c, BlocAt(c.ends, s.bloc, s.dst));
    Request(s.dst, s.src, WriteLength(c, s, end), end, s.max, a)
  }

  datatype Next = Stop(s: State) | Go(s: State)

  function Step(c: Config, s: State, a: WriteAnswer): (n: Next)
    requires Inv(c, s)
    ensures Inv(c, n.s) && |n.s.mem| == |s.mem|
    ensures n.Go? ==> a != NoResponse
  {
    var r := RequestOf(c, s, a);
    var s1 := s.(bloc := BlocAt(c.ends, s.bloc, s.dst));
    match a
    case NoResponse => Stop(s1)
    case Ccode(cc) =>
      if TooBig(cc) then
        if s.max > FRU_AREA_MAXIMUM_BLOCK_SZ then Go(s1.(max := s.max - FRU_BLOCK_SZ)) else Stop(s1)
      else if cc == CC_WRITE_PROTECTED then
        Go(s1.(dst := r.end, src := s.src + (r.end - s.dst)))
      else if cc != CC_OK then Stop(s1)
      else
        Go(s1.(dst := s.dst + r.len, src := s.src + r.len,
               mem := Splice(s.mem, Base(c.words, s.dst), c.src[s.src..s.src + r.len])))
  }

  datatype Trace = Trace(final: State, log: seq<Request>)

  function AnswerAt(answers: seq<WriteAnswer>): WriteAnswer {
    if answers == [] then NoResponse else answers[0]
  }

  function Run(c: Config, s: State, answers: seq<WriteAnswer>): (t: Trace)
    requires Inv(c, s)
    ensures Inv(c, t.final)
    decreases |answers|
  {
    var a := AnswerAt(answers);
    var r := RequestOf(c, s, a);
    match Step(c, s, a)
    case Stop(s') => Trace(s', [r])
    case Go(s') =>
      if s'.dst < c.finish then
        var t := Run(c, s', answers[1..]);
        Trace(t.final, [r] + t.log)
      else Trace(s', [r])
  }

  // ---- effect ----

  // Destination range [from, upto) after a run: every byte has its source value, or it
  // is unchanged and lies between a cursor and a stretch end that the device declared
  // write protected; nothing else changed.
  ghost predicate Effect(before: seq<byte>, after: seq<byte>, c: Config, from: nat, src: nat, upto: nat, log: seq<Request>) {
    && |after| == |before|
    && (forall i :: 0 <= i < |before| && !(from <= i < upto) ==> after[i] == before[i])
    && upto <= |before| && src + (upto - from) <= |c.src|
    && (forall i :: from <= i < upto ==>
         after[i] == c.src[src + (i - from)] || (after[i] == before[i] && Protected(log, i)))
  }

  ghost predicate Protected(log: seq<Request>, i: nat) {
    exists k :: 0 <= k < |log| && log[k].answer == Ccode(CC_WRITE_PROTECTED) && log[k].dst <= i < log[k].end
  }

  // A word device needs even positions: the cursor and every bloc end it may jump to.
  ghost predicate Aligned(c: Config, from: nat) {
    c.words ==> from % 2 == 0 && c.finish % 2 == 0 && forall i :: 0 <= i < |c.ends| && from < c.ends[i] < c.finish ==> c.ends[i] % 2 == 0
  }

  lemma StepKeepsAligned(c: Config, s: State, a: WriteAnswer)
    requires Inv(c, s) && Aligned(c, s.dst)
    ensures Aligned(c, Step(c, s, a).s.dst) && s.dst <= Step(c, s, a).s.dst
  {
  }

  // ---- word devices with odd bloc ends ----

  // Where the stretch behind the end of bloc e ends.
  function NextEnd(c: Config, e: nat): nat
    requires e < |c.ends|
  {
    EndOf(c, BlocAt(c.ends, e, c.ends[e]))
  }

  // A word device drops the last bit of an odd offset. A bloc end is harmful when it is
  // odd, a jump over a protected bloc can land on it, and the stretch behind it takes a
  // whole word: that word is then stored one byte too early.
  predicate Shifts(c: Config, from: nat, max: nat, e: nat)
    requires e < |c.ends|
  {
    c.words && max >= 2 && from < c.ends[e] && c.ends[e] % 2 == 1 && c.ends[e] + 2 <= NextEnd(c, e)
  }

  ghost predicate NeverShifts(c: Config, from: nat, max: nat) {
    forall e :: 0 <= e < |c.ends| ==> !Shifts(c, from, max, e)
  }

  ghost predicate EvenRange(c: Config, from: nat) {
    c.words ==> from % 2 == 0 && c.finish % 2 == 0
  }

  // At an odd cursor there is no room for a word, so nothing is written there.
  ghost predicate Tame(c: Config, from: nat, s: State)
    requires s.bloc <= |c.ends|
  {
    c.words && s.max >= 2 ==>
      && from <= s.dst && c.finish % 2 == 0 && NeverShifts(c, from, s.max)
      && (s.dst % 2 == 0 || EndOf(c, BlocAt(c.ends, s.bloc, s.dst)) <= s.dst + 1)
  }

  lemma BlocAtAgain(ends: seq<nat>, b: nat, dst: nat)
    requires b <= |ends|
    ensures BlocAt(ends, BlocAt(ends, b, dst), dst) == BlocAt(ends, b, dst)
  {
  }

  lemma StepKeepsTame(c: Config, from: nat, s: State, a: WriteAnswer)
    requires Inv(c, s) && Tame(c, from, s)
    ensures s.dst <= Step(c, s, a).s.dst
    ensures Step(c, s, a).s.dst < c.finish ==> Tame(c, from, Step(c, s, a).s)
  {
    hide Step;
    StepMoves(c, s, a);
    var b := BlocAt(c.ends, s.bloc, s.dst);
    BlocAtAgain(c.ends, s.bloc, s.dst);
    assert forall e :: 0 <= e < |c.ends| && Shifts(c, from, Step(c, s, a).s.max, e) ==> Shifts(c, from, s.max, e);
    assert b < |c.ends| && c.words && s.max >= 2 ==> !Shifts(c, from, s.max, b);
  }

  // What a step does to the cursors and the request size: the cursor stays, passes a
  // request, or jumps to the end of the stretch.
  lemma StepMoves(c: Config, s: State, a: WriteAnswer)
    requires Inv(c, s)
    ensures var b := BlocAt(c.ends, s.bloc, s.dst);
      var end, s' := EndOf(c, b), Step(c, s, a).s;
      && s'.bloc == b && s.dst <= end && s.dst <= s'.dst
      && (s'.max == s.max || (s.max > FRU_AREA_MAXIMUM_BLOCK_SZ && s'.max == s.max - FRU_BLOCK_SZ))
      && (s'.dst == s.dst || s'.dst == end || s'.dst == s.dst + WriteLength(c, s, end) <= end)
      && (c.words && end <= s.dst + 1 ==> WriteLength(c, s, end) == 0)
      && (c.words ==> WriteLength(c, s, end) % 2 == 0)
  {
  }

  lemma StepEffect(c: Config, from: nat, s: State, a: WriteAnswer)
    requires Inv(c, s) && Tame(c, from, s)
    ensures Effect(s.mem, Step(c, s, a).s.mem, c, s.dst, s.src, Step(c, s, a).s.dst, [RequestOf(c, s, a)])
    ensures Step(c, s, a).s.src - s.src == Step(c, s, a).s.dst - s.dst
  {
    var r := RequestOf(c, s, a);
    assert s.dst % 2 == 1 && c.words ==> r.len == 0;
    if a == Ccode(CC_WRITE_PROTECTED) {
      assert forall i :: r.dst <= i < r.end ==> Protected([r], i) by {
        assert [r][0] == r;
      }
    }
  }

  lemma EffectChain(c: Config, m0: seq<byte>, m1: seq<byte>, m2: seq<byte>, from: nat, src: nat, mid: nat, upto: nat,
      r: Request, log: seq<Request>)
    requires from <= mid <= upto
    requires Effect(m0, m1, c, from, src, mid, [r])
    requires Effect(m1, m2, c, mid, src + (mid - from), upto, log)
    ensures Effect(m0, m2, c, from, src, upto, [r] + log)
  {
    forall i | from <= i < upto
      ensures m2[i] == c.src[src + (i - from)] || (m2[i] == m0[i] && Protected([r] + log, i))
    {
      if i < mid {
        if Protected([r], i) {
          assert ([r] + log)[0] == r;
        }
      } else {
        if Protected(log, i) {
          var k :| 0 <= k < |log| && log[k].answer == Ccode(CC_WRITE_PROTECTED) && log[k].dst <= i < log[k].end;
          assert ([r] + log)[k + 1] == log[k];
        }
      }
    }
  }

  // For every device: whatever happens, the range behind the cursor holds the source
  // except where the device declared it protected, and nothing else was touched. A run
  // that reaches `finish` (return value 1) has this for the whole destination range.
  lemma RunEffect(c: Config, s: State, answers: seq<WriteAnswer>)
    requires Inv(c, s) && EvenRange(c, s.dst) && NeverShifts(c, s.dst, s.max)
    ensures s.dst <= Run(c, s, answers).final.dst <= c.finish
    ensures Effect(s.mem, Run(c, s, answers).final.mem, c, s.dst, s.src, Run(c, s, answers).final.dst, Run(c, s, answers).log)
  {
    TameRunEffect(c, s.dst, s, answers);
  }

  lemma {:induction false} TameRunEffect(c: Config, from: nat, s: State, answers: seq<WriteAnswer>)
    requires Inv(c, s) && Tame(c, from, s)
    ensures s.dst <= Run(c, s, answers).final.dst <= c.finish
    ensures Effect(s.mem, Run(c, s, answers).final.mem, c, s.dst, s.src, Run(c, s, answers).final.dst, Run(c, s, answers).log)
    decreases |answers|
  {
    hide Step, RequestOf, Effect, Tame;
    var a := AnswerAt(answers);
    StepEffect(c, from, s, a);
    StepKeepsTame(c, from, s, a);
    var n := Step(c, s, a);
    if n.Go? && n.s.dst < c.finish {
      TameRunEffect(c, from, n.s, answers[1..]);
      var t := Run(c, n.s, answers[1..]);
      EffectChain(c, s.mem, n.s.mem, t.final.mem, s.dst, s.src, n.s.dst, t.final.dst, RequestOf(c, s, a), t.log);
    }
  }

  // ---- exactly which bytes arrive ----

  // A write request that covers byte i was accepted.
  ghost predicate Delivered(log: seq<Request>, i: nat) {
    exists k :: 0 <= k < |log| && log[k].answer == Ccode(CC_OK) && log[k].dst <= i < log[k].dst + log[k].len
  }

  // A byte has its source value if it was delivered, otherwise it is as before.
  ghost predicate Stored(before: seq<byte>, after: seq<byte>, c: Config, from: nat, src: nat, log: seq<Request>) {
    && |after| == |before|
    && (forall i :: 0 <= i < |before| && Delivered(log, i) ==> from <= i && src + (i - from) < |c.src|)
    && (forall i :: 0 <= i < |before| ==> after[i] == if Delivered(log, i) then c.src[src + (i - from)] else before[i])
  }

  lemma StepStores(c: Config, from: nat, s: State, a: WriteAnswer)
    requires Inv(c, s) && Tame(c, from, s)
    ensures Stored(s.mem, Step(c, s, a).s.mem, c, s.dst, s.src, [RequestOf(c, s, a)])
    ensures Step(c, s, a).s.src - s.src == Step(c, s, a).s.dst - s.dst >= 0
  {
    var r := RequestOf(c, s, a);
    assert s.dst % 2 == 1 && c.words ==> r.len == 0;
    assert forall i: nat :: Delivered([r], i) <==> a == Ccode(CC_OK) && r.dst <= i < r.dst + r.len by {
      assert [r][0] == r;
    }
  }

  lemma DeliveredFirst(r: Request, log: seq<Request>, i: nat)
    ensures Delivered([r] + log, i) <==> Delivered([r], i) || Delivered(log, i)
  {
    var all := [r] + log;
    assert all[0] == r && [r][0] == r && forall k :: 0 <= k < |log| ==> all[k + 1] == log[k];
    if k :| 0 <= k < |all| && all[k].answer == Ccode(CC_OK) && all[k].dst <= i < all[k].dst + all[k].len {
      assert k == 0 || log[k - 1] == all[k];
    }
  }

  lemma StoredChain(c: Config, m0: seq<byte>, m1: seq<byte>, m2: seq<byte>, from: nat, src: nat, mid: nat, r: Request, log: seq<Request>)
    requires from <= mid
    requires Stored(m0, m1, c, from, src, [r]) && Stored(m1, m2, c, mid, src + (mid - from), log)
    ensures Stored(m0, m2, c, from, src, [r] + log)
  {
    hide Delivered;
    forall i | 0 <= i < |m0|
      ensures Delivered([r] + log, i) ==> from <= i && src + (i - from) < |c.src|
      ensures m2[i] == if Delivered([r] + log, i) then c.src[src + (i - from)] else m0[i]
    {
      DeliveredFirst(r, log, i);
    }
  }

  lemma {:induction false} TameRunStores(c: Config, from: nat, s: State, answers: seq<WriteAnswer>)
    requires Inv(c, s) && Tame(c, from, s)
    ensures Stored(s.mem, Run(c, s, answers).final.mem, c, s.dst, s.src, Run(c, s, answers).log)
    decreases |answers|
  {
    hide Step, RequestOf, Stored, Tame;
    var a := AnswerAt(answers);
    StepStores(c, from, s, a);
    StepKeepsTame(c, from, s, a);
    var n := Step(c, s, a);
    if n.Go? && n.s.dst < c.finish {
      TameRunStores(c, from, n.s, answers[1..]);
      var t := Run(c, n.s, answers[1..]);
      StoredChain(c, s.mem, n.s.mem, t.final.mem, s.dst, s.src, n.s.dst, RequestOf(c, s, a), t.log);
    }
  }

  // For every device: a byte of the device has its source value exactly when a request
  // that covers it was accepted, and its old value otherwise.
  lemma RunStores(c: Config, s: State, answers: seq<WriteAnswer>)
    requires Inv(c, s) && EvenRange(c, s.dst) && NeverShifts(c, s.dst, s.max)
    ensures Stored(s.mem, Run(c, s, answers).final.mem, c, s.dst, s.src, Run(c, s, answers).log)
  {
    TameRunStores(c, s.dst, s, answers);
  }

  // ---- the exact condition ----

  // The call has its effect whatever the source, the device's content and its answers.
  ghost predicate AlwaysEffective(c: Config, s: State)
    requires Inv(c, s)
  {
    forall src: seq<byte>, mem: seq<byte>, answers: seq<WriteAnswer> :: |src| == |c.src| && |mem| == |s.mem| ==>
      var c1, s1 := c.(src := src), s.(mem := mem);
      var t := Run(c1, s1, answers);
      Effect(mem, t.final.mem, c1, s.dst, s.src, t.final.dst, t.log)
  }

  // Every call that reports success, having reached `finish`, has its effect.
  ghost predicate EffectiveOnSuccess(c: Config, s: State)
    requires Inv(c, s)
  {
    forall src: seq<byte>, mem: seq<byte>, answers: seq<WriteAnswer> :: |src| == |c.src| && |mem| == |s.mem| ==>
      var c1, s1 := c.(src := src), s.(mem := mem);
      var t := Run(c1, s1, answers);
      t.final.dst == c.finish ==> Effect(mem, t.final.mem, c1, s.dst, s.src, t.final.dst, t.log)
  }

  // The exact condition: the effect holds for every device, and already for every device
  // that lets the call report success, if and only if no harmful bloc end lies in the
  // range.
  lemma EffectiveIffNeverShifts(c: Config, s: State)
    requires Inv(c, s) && s.bloc == 0 && Ordered(c.ends) && EvenRange(c, s.dst)
    ensures AlwaysEffective(c, s) <==> NeverShifts(c, s.dst, s.max)
    ensures EffectiveOnSuccess(c, s) <==> NeverShifts(c, s.dst, s.max)
  {
    hide Run;
    if NeverShifts(c, s.dst, s.max) {
      forall src: seq<byte>, mem: seq<byte>, answers: seq<WriteAnswer> | |src| == |c.src| && |mem| == |s.mem|
        ensures var c1, s1 := c.(src := src), s.(mem := mem);
          var t := Run(c1, s1, answers);
          Effect(mem, t.final.mem, c1, s.dst, s.src, t.final.dst, t.log)
      {
        var c1, s1 := c.(src := src), s.(mem := mem);
        assert forall e :: 0 <= e < |c.ends| ==> Shifts(c1, s.dst, s.max, e) == Shifts(c, s.dst, s.max, e);
        RunEffect(c1, s1, answers);
      }
    } else {
      var e :| 0 <= e < |c.ends| && Shifts(c, s.dst, s.max, e);
      var at := s.src + (c.ends[e] - s.dst);
      var src: seq<byte> := seq(|c.src|, i => if i == at then 1 else 0);
      var mem := Zeros(|s.mem|);
      var c1, s1 := c.(src := src), s.(mem := mem);
      var answers := ShiftingRun(c1, s1, e);
      var t := Run(c1, s1, answers);
      var k := c.ends[e] - 1;
      assert t.final.mem[k] == 1 && src[s.src + (k - s.dst)] == 0 && mem[k] == 0;
      assert !Effect(mem, t.final.mem, c1, s.dst, s.src, t.final.dst, t.log);
      assert t.final.dst == c.finish;
    }
  }

  lemma {:induction false} BlocAtSkips(ends: seq<nat>, b: nat, e: nat, dst: nat)
    requires b <= e <= |ends| && forall i :: b <= i < e ==> ends[i] <= dst
    ensures BlocAt(ends, b, dst) == BlocAt(ends, e, dst)
    decreases e - b
  {
    if b < e { BlocAtSkips(ends, b + 1, e, dst); }
  }

  // A device that protects every stretch up to the odd end, accepts the write behind it
  // and protects the rest gets that word one byte too early, and the call succeeds.
  lemma {:induction false} ShiftingRun(c: Config, s: State, e: nat) returns (answers: seq<WriteAnswer>)
    requires Inv(c, s) && Ordered(c.ends) && s.bloc <= e < |c.ends| && s.dst <= c.ends[e]
    requires c.words && s.max >= 2 && c.ends[e] % 2 == 1 && c.ends[e] + 2 <= NextEnd(c, e) && c.ends[e] < c.finish
    requires c.src[s.src + (c.ends[e] - s.dst)] == 1
    ensures Run(c, s, answers).final.dst == c.finish && Run(c, s, answers).final.mem[c.ends[e] - 1] == 1
    decreases c.ends[e] - s.dst
  {
    hide BlocAt, NextEnd, Step, RequestOf;
    var o, b := c.ends[e], BlocAt(c.ends, s.bloc, s.dst);
    if s.dst == o {
      ShiftingStep(c, s, e);
      var s' := Step(c, s, Ccode(CC_OK)).s;
      var rest := ProtectedRun(c, s');
      answers := [Ccode(CC_OK)] + rest;
      assert answers[1..] == rest;
    } else {
      var p := Ccode(CC_WRITE_PROTECTED);
      BlocUpTo(c.ends, s.bloc, e, s.dst);
      assert c.ends[b] <= o;
      JumpStep(c, s);
      var s' := Step(c, s, p).s;
      var rest := ShiftingRun(c, s', e);
      answers := [p] + rest;
      assert answers[1..] == rest;
    }
  }

  // A device that protects everything from the cursor on.
  lemma {:induction false} ProtectedRun(c: Config, s: State) returns (answers: seq<WriteAnswer>)
    requires Inv(c, s)
    ensures s.dst < c.finish ==> Run(c, s, answers).final.dst == c.finish && Run(c, s, answers).final.mem == s.mem
    decreases c.finish - s.dst
  {
    hide Step, RequestOf;
    answers := [];
    if s.dst < c.finish {
      var p := Ccode(CC_WRITE_PROTECTED);
      JumpStep(c, s);
      var rest := ProtectedRun(c, Step(c, s, p).s);
      answers := [p] + rest;
      assert answers[1..] == rest;
    }
  }

  lemma JumpStep(c: Config, s: State)
    requires Inv(c, s)
    ensures var b := BlocAt(c.ends, s.bloc, s.dst);
      s.dst <= EndOf(c, b) && Step(c, s, Ccode(CC_WRITE_PROTECTED))
        == Go(s.(bloc := b, dst := EndOf(c, b), src := s.src + (EndOf(c, b) - s.dst)))
  {
  }

  lemma ShiftingStep(c: Config, s: State, e: nat)
    requires Inv(c, s) && Ordered(c.ends) && s.bloc <= e < |c.ends| && s.dst == c.ends[e]
    requires c.words && s.max >= 2 && s.dst % 2 == 1 && s.dst + 2 <= NextEnd(c, e) && c.src[s.src] == 1
    ensures var n := Step(c, s, Ccode(CC_OK)); n.Go? && s.dst <= n.s.dst && n.s.mem[s.dst - 1] == 1
  {
    BlocAtSkips(c.ends, s.bloc, e, s.dst);
  }

  lemma SilentRun(c: Config, s: State)
    requires Inv(c, s)
    ensures var t := Run(c, s, []); t.final.dst == s.dst && t.final.mem == s.mem && |t.log| == 1 && t.log[0].answer == NoResponse
  {
  }

  lemma BlocUpTo(ends: seq<nat>, b: nat, e: nat, dst: nat)
    requires b <= e < |ends| && ends[e] > dst
    ensures BlocAt(ends, b, dst) <= e
  {
  }

  // ---- every request stays where it belongs ----

  // A request is no longer than the request size in force, lies inside the destination
  // range, keeps source and destination in step, and stays inside one bloc.
  ghost predicate Contained(c: Config, from: nat, src: nat, r: Request) {
    && r.len <= r.max
    && from <= r.dst && r.dst + r.len <= r.end <= c.finish
    && src <= r.src && r.src - src == r.dst - from
    && (c.ends == [] || exists b :: InBloc(c.ends, b, r))
  }

  ghost predicate InBloc(ends: seq<nat>, b: nat, r: Request) {
    b < |ends| && (if b == 0 then 0 else ends[b - 1]) <= r.dst && r.end <= ends[b]
  }

  // The bloc cursor never runs ahead of the destination cursor.
  ghost predicate CursorOk(c: Config, s: State) {
    && (s.bloc > 0 ==> s.bloc <= |c.ends| && c.ends[s.bloc - 1] <= s.dst)
    && (c.ends != [] ==> c.ends[|c.ends| - 1] >= c.finish && (s.dst < c.finish || s.bloc < |c.ends|))
  }

  lemma StepContained(c: Config, s: State, a: WriteAnswer)
    requires Inv(c, s) && CursorOk(c, s) && s.dst < c.finish
    ensures Contained(c, s.dst, s.src, RequestOf(c, s, a))
    ensures Step(c, s, a).s.dst < c.finish ==> CursorOk(c, Step(c, s, a).s)
  {
    var b := BlocAt(c.ends, s.bloc, s.dst);
    if c.ends != [] {
      assert b < |c.ends| by {
        assert c.ends[|c.ends| - 1] > s.dst;
      }
      assert b > 0 ==> c.ends[b - 1] <= s.dst;
      assert InBloc(c.ends, b, RequestOf(c, s, a));
    }
  }

  lemma {:induction false} RunContained(c: Config, s: State, answers: seq<WriteAnswer>)
    requires Inv(c, s) && CursorOk(c, s) && s.dst < c.finish
    ensures forall k :: 0 <= k < |Run(c, s, answers).log| ==> Contained(c, s.dst, s.src, Run(c, s, answers).log[k])
    decreases |answers|
  {
    var a := AnswerAt(answers);
    StepContained(c, s, a);
    match Step(c, s, a)
    case Stop(_) =>
    case Go(s') =>
      if s'.dst < c.finish {
        RunContained(c, s', answers[1..]);
        var log := Run(c, s', answers[1..]).log;
        forall k | 0 <= k < |log| ensures Contained(c, s.dst, s.src, log[k]) {
          assert Contained(c, s'.dst, s'.src, log[k]);
        }
      }
  }

  // ---- how many requests ----

  // How often a request size can still be reduced.
  function Shrinks(max: nat): nat {
    if max > FRU_AREA_MAXIMUM_BLOCK_SZ then 1 + Shrinks(max - FRU_BLOCK_SZ) else 0
  }

  lemma ShrinksBound(max: nat)
    requires max < 0x100
    ensures Shrinks(max) <= 28 == Shrinks(255)
  {
    ShrinksClosed(max);
    ShrinksClosed(255);
  }

  lemma {:induction false} ShrinksClosed(max: nat)
    ensures Shrinks(max) == if max > 32 then (max - 25) / 8 else 0
    decreases max
  {
    if max > 32 { ShrinksClosed(max - 8); }
  }

  // Every accepted write moves the cursor.
  ghost predicate Progress(c: Config, s: State) {
    s.max >= (if c.words then 2 else 1) && Aligned(c, s.dst)
  }

  lemma StepProgress(c: Config, s: State, a: WriteAnswer)
    requires Inv(c, s) && Progress(c, s) && s.dst < c.finish && Step(c, s, a).Go?
    ensures var s' := Step(c, s, a).s;
      Progress(c, s') && (c.finish - s'.dst) + Shrinks(s'.max) < (c.finish - s.dst) + Shrinks(s.max)
  {
    StepKeepsAligned(c, s, a);
  }

  // Whatever the device answers, a call sends at most one request per byte, one for each
  // reduction of the request size, and one more: length + 29 from any size up to 255.
  lemma {:induction false} RunBounded(c: Config, s: State, answers: seq<WriteAnswer>)
    requires Inv(c, s) && Progress(c, s) && s.dst < c.finish
    ensures |Run(c, s, answers).log| <= (c.finish - s.dst) + Shrinks(s.max) + 1 <= (c.finish - s.dst) + 29
    decreases |answers|
  {
    ShrinksBound(s.max);
    var a := AnswerAt(answers);
    match Step(c, s, a)
    case Stop(_) =>
    case Go(s') =>
      StepProgress(c, s, a);
      if s'.dst < c.finish {
        RunBounded(c, s', answers[1..]);
      }
  }

  function Oks(n: nat): (a: seq<WriteAnswer>)
    ensures |a| == n
  {
    seq(n, _ => Ccode(CC_OK))
  }

  ghost predicate Ordered(ends: seq<nat>) {
    forall i, j :: 0 <= i < j < |ends| ==> ends[i] <= ends[j]
  }

  // Why a call makes no progress: the request size is too small, or a word device has an
  // odd bloc end (at index e) inside the range.
  ghost predicate Blocked(c: Config, s: State, e: nat) {
    || s.max < (if c.words then 2 else 1)
    || (c.words && s.dst % 2 == 0 && Ordered(c.ends) && s.bloc <= e < |c.ends|
        && s.dst < c.ends[e] < c.finish && c.ends[e] % 2 == 1)
  }

  lemma StepBlocked(c: Config, s: State, e: nat)
    requires Inv(c, s) && s.dst < c.finish && Blocked(c, s, e)
    ensures var n := Step(c, s, Ccode(CC_OK)); n.Go? && n.s.dst < c.finish && Blocked(c, n.s, e)
  {
    var b := BlocAt(c.ends, s.bloc, s.dst);
    if s.max >= (if c.words then 2 else 1) {
      assert b <= e;
      assert c.ends[b] <= c.ends[e];
    }
  }

  lemma {:induction false} BlockedRuns(c: Config, s: State, e: nat, n: nat)
    requires Inv(c, s) && s.dst < c.finish && Blocked(c, s, e)
    ensures |Run(c, s, Oks(n)).log| == n + 1 && Run(c, s, Oks(n)).final.dst < c.finish
    decreases n
  {
    hide Step, Blocked, RequestOf;
    StepBlocked(c, s, e);
    if n > 0 {
      var s' := Step(c, s, Ccode(CC_OK)).s;
      assert Oks(n)[1..] == Oks(n - 1);
      BlockedRuns(c, s', e, n - 1);
    } else {
      assert Oks(0) == [];
      SilentRun(c, s);
    }
  }

  // No device makes the call send more than bound requests.
  ghost predicate BoundsRuns(c: Config, s: State, bound: nat)
    requires Inv(c, s)
  {
    forall answers :: |Run(c, s, answers).log| <= bound
  }

  // The number of requests has a bound that holds for every device exactly when the
  // request size and the bloc ends allow progress. Otherwise a device that accepts every
  // single write keeps the call busy for ever.
  lemma BoundedIffProgress(c: Config, s: State)
    requires Inv(c, s) && s.dst < c.finish && s.bloc == 0 && Ordered(c.ends)
    requires c.words ==> s.dst % 2 == 0 && c.finish % 2 == 0
    ensures Progress(c, s) <==> exists bound: nat :: BoundsRuns(c, s, bound)
  {
    if Progress(c, s) {
      forall answers ensures |Run(c, s, answers).log| <= (c.finish - s.dst) + Shrinks(s.max) + 1 {
        RunBounded(c, s, answers);
      }
      assert BoundsRuns(c, s, (c.finish - s.dst) + Shrinks(s.max) + 1);
    } else {
      var e: nat := 0;
      if s.max >= (if c.words then 2 else 1) {
        e :| 0 <= e < |c.ends| && s.dst < c.ends[e] < c.finish && c.ends[e] % 2 != 0;
      }
      forall bound: nat | BoundsRuns(c, s, bound) ensures false {
        BlockedRuns(c, s, e, bound);
      }
    }
  }
}
