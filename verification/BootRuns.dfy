// Safety of the boot option protocol over whole runs.
module BootRuns {
  import opened BootProtocol

  ghost predicate OpsOk(ops: seq<Op>) {
    forall i :: 0 <= i < |ops| ==> (ops[i].OpDev? && ops[i].iflags.Some? ==> |ops[i].iflags.value| == 5)
  }

  // Any sequence of operations, one after the other.
  ghost function RunOps(d: Device, s: Session, ops: seq<Op>): Session
    requires OpsOk(ops)
    decreases |ops|
  {
    if ops == [] then s else RunOps(d, Do(d, s, ops[0]).0, ops[1..])
  }

  // ---- properties of a log ----

  predicate Opening(e: Event) { e.cmd == Progress(SetInProgress) }

  // An accepted set-in-progress is followed by a set-complete with no other opening or
  // closing in between.
  ghost predicate ClosedAt(log: seq<Event>, i: nat) {
    exists j :: i < j < |log| && log[j].cmd == Progress(SetComplete) && OnlyCommitsBetween(log, i, j)
  }

  ghost predicate OnlyCommitsBetween(log: seq<Event>, i: nat, j: nat)
    requires j < |log|
  {
    forall m :: i < m < j ==> log[m].cmd != Progress(SetInProgress) && log[m].cmd != Progress(SetComplete)
  }

  // A commit at i belongs to an accepted set-in-progress before it; in between there is
  // no other progress request, something was written, and every write succeeded.
  ghost predicate EarnedAt(log: seq<Event>, i: nat) {
    exists o :: 0 <= o < i < |log| && Opening(log[o]) && log[o].rc == 0 && NoProgress(log[o + 1..i])
             && HasWrite(log[o + 1..i]) && WritesOk(log[o + 1..i])
  }

  predicate Refused(e: Event) { Opening(e) && e.rc != 0 }

  ghost predicate NeverRefused(log: seq<Event>) {
    forall i :: 0 <= i < |log| ==> !Refused(log[i])
  }

  ghost predicate AllClosed(log: seq<Event>) {
    forall i :: 0 <= i < |log| && Opening(log[i]) && log[i].rc == 0 ==> ClosedAt(log, i)
  }

  ghost predicate AllEarned(log: seq<Event>) {
    forall i :: 0 <= i < |log| && log[i].cmd == Progress(CommitWrite) ==> EarnedAt(log, i)
  }

  // Once a set-in-progress was refused, no progress request follows.
  ghost predicate SilentAfterRefusal(log: seq<Event>) {
    forall i, j :: 0 <= i < j < |log| && Refused(log[i]) ==> !IsProgress(log[j])
  }

  ghost predicate Safe(log: seq<Event>, useProgress: bool) {
    AllClosed(log) && AllEarned(log) && SilentAfterRefusal(log) && (useProgress <==> NeverRefused(log))
  }

  // ---- appending one operation ----

  lemma ClosedStays(log: seq<Event>, seg: seq<Event>, i: nat)
    requires ClosedAt(log, i)
    ensures ClosedAt(log + seg, i)
  {
    var j :| i < j < |log| && log[j].cmd == Progress(SetComplete) && OnlyCommitsBetween(log, i, j);
    assert (log + seg)[j] == log[j];
    assert OnlyCommitsBetween(log + seg, i, j);
  }

  lemma EarnedStays(log: seq<Event>, seg: seq<Event>, i: nat)
    requires EarnedAt(log, i)
    ensures EarnedAt(log + seg, i)
  {
    var o :| 0 <= o < i < |log| && Opening(log[o]) && log[o].rc == 0 && NoProgress(log[o + 1..i])
          && HasWrite(log[o + 1..i]) && WritesOk(log[o + 1..i]);
    assert (log + seg)[o] == log[o] && (log + seg)[o + 1..i] == log[o + 1..i];
  }

  lemma SegmentWithoutProgress(log: seq<Event>, seg: seq<Event>)
    requires NoProgress(seg) && Safe(log, false)
    ensures Safe(log + seg, false)
  {
    var all := log + seg;
    forall i | 0 <= i < |all| && Opening(all[i]) && all[i].rc == 0 ensures ClosedAt(all, i) {
      assert i < |log|;
      ClosedStays(log, seg, i);
    }
    forall i | 0 <= i < |all| && all[i].cmd == Progress(CommitWrite) ensures EarnedAt(all, i) {
      assert i < |log|;
      EarnedStays(log, seg, i);
    }
    var r :| 0 <= r < |log| && Refused(log[r]);
    assert Refused(all[r]);
  }

  lemma SegmentRefused(log: seq<Event>, seg: seq<Event>)
    requires seg != [] && Refused(seg[0]) && NoProgress(seg[1..]) && Safe(log, true)
    ensures Safe(log + seg, false)
  {
    var all := log + seg;
    assert forall k :: 1 <= k < |seg| ==> seg[k] == seg[1..][k - 1];
    forall i | 0 <= i < |all| && Opening(all[i]) && all[i].rc == 0 ensures ClosedAt(all, i) {
      assert i < |log|;
      ClosedStays(log, seg, i);
    }
    forall i | 0 <= i < |all| && all[i].cmd == Progress(CommitWrite) ensures EarnedAt(all, i) {
      assert i < |log|;
      EarnedStays(log, seg, i);
    }
    assert Refused(all[|log|]);
  }

  // Where the parts of a shape lie.
  lemma ShapeParts(sh: Shape, k: nat)
    requires k < |Events(sh)|
    ensures var b, c, t := |sh.body|, |sh.commit|, |sh.tail|;
      Events(sh)[k] == if k == 0 then sh.open else if k <= b then sh.body[k - 1]
        else if k <= b + c then sh.commit[k - 1 - b] else if k <= b + c + t then sh.tail[k - 1 - b - c] else sh.close
  {
  }

  lemma SegmentAccepted(log: seq<Event>, sh: Shape)
    requires Accepted(sh) && Safe(log, true)
    ensures Safe(log + Events(sh), true)
  {
    var seg := Events(sh);
    var all, n := log + seg, |log|;
    forall k | 0 <= k < |seg|
      ensures Opening(seg[k]) ==> k == 0
      ensures seg[k].cmd == Progress(SetComplete) ==> k == |seg| - 1
      ensures seg[k].cmd == Progress(CommitWrite) ==> k == |sh.body| + 1 && sh.commit != []
    {
      ShapeParts(sh, k);
    }
    ShapeParts(sh, 0);
    ShapeParts(sh, |seg| - 1);
    forall i | 0 <= i < |all| && Opening(all[i]) && all[i].rc == 0 ensures ClosedAt(all, i) {
      if i < n {
        ClosedStays(log, seg, i);
      } else {
        assert all[n + |seg| - 1] == seg[|seg| - 1];
        assert OnlyCommitsBetween(all, n, n + |seg| - 1);
      }
    }
    forall i | 0 <= i < |all| && all[i].cmd == Progress(CommitWrite) ensures EarnedAt(all, i) {
      if i < n {
        EarnedStays(log, seg, i);
      } else {
        assert all[n] == seg[0] && all[n + 1..i] == sh.body;
      }
    }
    assert forall i :: 0 <= i < |all| ==> !Refused(all[i]);
  }

  lemma SegmentKeepsSafe(log: seq<Event>, seg: seq<Event>, use0: bool, use1: bool)
    requires Safe(log, use0) && SegmentOk(use0, seg, use1)
    ensures Safe(log + seg, use1)
  {
    if !use0 {
      SegmentWithoutProgress(log, seg);
    } else if seg == [] {
      assert log + seg == log;
    } else if seg[0].cmd == Progress(SetInProgress) && seg[0].rc == 0 {
      var sh :| Accepted(sh) && seg == Events(sh);
      SegmentAccepted(log, sh);
    } else {
      SegmentRefused(log, seg);
    }
  }

  // Over every run of boot device, boot valid and mailbox operations against any device:
  // every accepted set-in-progress is followed by its set-complete, every commit was
  // earned by successful writes, and after the first refusal no progress request is ever
  // sent again.
  lemma {:induction false} RunsAreSafe(d: Device, s: Session, ops: seq<Op>)
    requires OpsOk(ops) && Safe(s.log, s.useProgress)
    ensures Safe(RunOps(d, s, ops).log, RunOps(d, s, ops).useProgress)
    decreases |ops|
  {
    if ops != [] {
      hide Safe, OpsOk, Do;
      var s' := StepKeepsSafe(d, s, ops);
      RunsAreSafe(d, s', ops[1..]);
    }
  }

  lemma StepKeepsSafe(d: Device, s: Session, ops: seq<Op>) returns (s': Session)
    requires OpsOk(ops) && ops != [] && Safe(s.log, s.useProgress)
    ensures OpsOk(ops[..1]) && s' == Do(d, s, ops[0]).0 && OpsOk(ops[1..]) && Safe(s'.log, s'.useProgress)
    ensures RunOps(d, s, ops) == RunOps(d, s', ops[1..])
  {
    hide Safe, SegmentOk, Do;
    assert ops[0].OpDev? && ops[0].iflags.Some? ==> |ops[0].iflags.value| == 5;
    EveryOpKeeps(d, s, ops[0]);
    s' := Do(d, s, ops[0]).0;
    assert s'.log == s.log + Added(s, s');
    SegmentKeepsSafe(s.log, Added(s, s'), s.useProgress, s'.useProgress);
  }

  // A fresh session is safe, so every run from the start of the program is.
  lemma FreshRunsAreSafe(d: Device, ops: seq<Op>)
    requires OpsOk(ops)
    ensures var s := RunOps(d, Session(true, []), ops); Safe(s.log, s.useProgress)
  {
    RunsAreSafe(d, Session(true, []), ops);
  }
}
