// The set-in-progress protocol around the boot options (section 28.12 of IPMI v2.0,
// lib/ipmi_chassis.c): what the three operations send, and what every run keeps.
module BootProtocol {
  import opened Bytes
  import opened BootMailbox

  datatype ProgressState = SetComplete | SetInProgress | CommitWrite

  // Requests to the chassis device. GetValid reads the boot flag valid bits.
  datatype Command =
    | Progress(state: ProgressState)
    | Ack(flags: byte)
    | GetValid
    | SetValid(flags: byte)
    | BootFlags(bytes: seq<byte>)
    | Mailbox(block: Block)

  // -1 for no response (or a failed read), otherwise the completion code or the value read.
  type answer = x: int | -1 <= x < 0x100

  datatype Event = Event(cmd: Command, rc: answer)

  // An arbitrary device: its answer to the k-th request of the run.
  type Device = nat -> answer

  // use_progress, and everything sent so far.
  datatype Session = Session(useProgress: bool, log: seq<Event>)

  // ---- the operations ----

  function Send(d: Device, s: Session, cmd: Command): Session {
    s.(log := s.log + [Event(cmd, d(|s.log|))])
  }

  function Rc(s: Session): answer
    requires s.log != []
  {
    s.log[|s.log| - 1].rc
  }

  // chassis_bootparam_set_in_progress
  function SetProgress(d: Device, s: Session, state: ProgressState): Session {
    if !s.useProgress then s
    else
      var s' := Send(d, s, Progress(state));
      if Rc(s') != 0 && state == SetInProgress then s'.(useProgress := false) else s'
  }

  // Bitwise (v & ~clr) | set on bytes.
  function ApplyFlags(v: byte, setFlag: byte, clrFlag: byte): byte {
    ((v as bv8 & !(clrFlag as bv8)) | (setFlag as bv8)) as int
  }

  const BIOS_POST_ACK: byte := 1
  const OS_LOADER_ACK: byte := 2

  // ipmi_chassis_set_bootvalid
  function SetBootvalid(d: Device, s: Session, setFlag: byte, clrFlag: byte): (Session, int) {
    var s1 := Send(d, SetProgress(d, s, SetInProgress), Ack(BIOS_POST_ACK));
    if Rc(s1) != 0 then (SetProgress(d, s1, SetComplete), Rc(s1))
    else
      var s2 := Send(d, s1, GetValid);
      if Rc(s2) < 0 then (SetProgress(d, s2, SetComplete), Rc(s2))
      else
        var s3 := Send(d, s2, SetValid(ApplyFlags(Rc(s2), setFlag, clrFlag)));
        var s4 := if Rc(s3) == 0 then SetProgress(d, s3, CommitWrite) else s3;
        (SetProgress(d, s4, SetComplete), Rc(s3))
  }

  // The bits of the boot device selector in boot flags byte 1.
  function DeviceBits(arg: Option<string>): Option<byte> {
    match arg
    case None => Some(0x00)
    case Some(a) =>
      if a == "none" then Some(0x00)
      else if a == "pxe" || a == "force_pxe" then Some(0x04)
      else if a == "disk" || a == "force_disk" then Some(0x08)
      else if a == "safe" || a == "force_safe" then Some(0x0c)
      else if a == "diag" || a == "force_diag" then Some(0x10)
      else if a == "cdrom" || a == "force_cdrom" then Some(0x14)
      else if a == "remotecd" || a == "force_remotecd" then Some(0x20)
      else if a == "floppy" || a == "force_floppy" then Some(0x3c)
      else if a == "bios" || a == "force_bios" then Some(0x18)
      else None
  }

  function OrByte(a: byte, b: byte): byte {
    ((a as bv8) | (b as bv8)) as int
  }

  function DeviceFlags(iflags: Option<seq<byte>>, bits: byte): seq<byte>
    requires iflags.Some? ==> |iflags.value| == 5
  {
    var f := if iflags.Some? then iflags.value else [0, 0, 0, 0, 0];
    f[0 := OrByte(f[0], 0x80)][1 := OrByte(f[1], bits)]
  }

  // ipmi_chassis_set_bootdev: only a missing response to the acknowledge ends it early.
  function SetBootdev(d: Device, s: Session, arg: Option<string>, iflags: Option<seq<byte>>): (Session, int)
    requires iflags.Some? ==> |iflags.value| == 5
  {
    var s1 := Send(d, SetProgress(d, s, SetInProgress), Ack(BIOS_POST_ACK));
    if Rc(s1) < 0 then (SetProgress(d, s1, SetComplete), Rc(s1))
    else if DeviceBits(arg).None? then (SetProgress(d, s1, SetComplete), -1)
    else
      var s2 := Send(d, s1, BootFlags(DeviceFlags(iflags, DeviceBits(arg).value)));
      var s3 := if Rc(s2) == 0 then SetProgress(d, s2, CommitWrite) else s2;
      (SetProgress(d, s3, SetComplete), Rc(s2))
  }

  // The arguments of a mailbox write: the IANA number if it parses, and either a text or
  // a list of byte arguments, each a byte if it parses.
  datatype MailboxData = Text(text: seq<byte>) | ByteArgs(args: seq<Option<byte>>) | NoData

  // The payload and the number of blocks, when the arguments are accepted. A text is
  // written with its terminator; a negative block number means the whole mailbox.
  function Payload(data: MailboxData): Option<seq<byte>> {
    match data
    case NoData => None
    case Text(t) => Some(t + [0])
    case ByteArgs(args) =>
      if args == [] || exists i :: 0 <= i < |args| && args[i].None? then None
      else Some(seq(|args|, i requires 0 <= i < |args| => if args[i].Some? then args[i].value else 0))
  }

  function PlannedBlocks(block: int, iana: Option<int>, data: MailboxData): Option<seq<Block>> {
    if iana.None? || Payload(data).None? then None
    else
      var p := Payload(data).value;
      var n := if block >= 0 then 1 else BlocksFor(|p|);
      if n > MAX_BLOCKS then None
      else Some(Split(p, if block >= 0 then block else 0, n, iana.value))
  }

  // Write blocks until one fails.
  function WriteBlocks(d: Device, s: Session, bs: seq<Block>): (Session, int)
    decreases |bs|
  {
    if bs == [] then (s, 0)
    else
      var s1 := Send(d, s, Mailbox(bs[0]));
      if Rc(s1) != 0 then (s1, Rc(s1)) else WriteBlocks(d, s1, bs[1..])
  }

  // chassis_set_bootmailbox
  function SetBootmailbox(d: Device, s: Session, block: int, iana: Option<int>, data: MailboxData): (Session, int) {
    var planned := PlannedBlocks(block, iana, data);
    if planned.None? then (s, -1)
    else
      var (s2, rc) := WriteBlocks(d, SetProgress(d, s, SetInProgress), planned.value);
      if rc != 0 then (SetProgress(d, s2, SetComplete), rc)
      else
        var s4 := Send(d, SetProgress(d, s2, CommitWrite), Ack(BIOS_POST_ACK + OS_LOADER_ACK));
        (SetProgress(d, s4, SetComplete), Rc(s4))
  }

  datatype Op =
    | OpValid(setFlag: byte, clrFlag: byte)
    | OpDev(arg: Option<string>, iflags: Option<seq<byte>>)
    | OpMailbox(block: int, iana: Option<int>, data: MailboxData)

  function Do(d: Device, s: Session, op: Op): (Session, int)
    requires op.OpDev? && op.iflags.Some? ==> |op.iflags.value| == 5
  {
    match op
    case OpValid(setFlag, clrFlag) => SetBootvalid(d, s, setFlag, clrFlag)
    case OpDev(arg, iflags) => SetBootdev(d, s, arg, iflags)
    case OpMailbox(block, iana, data) => SetBootmailbox(d, s, block, iana, data)
  }

  // ---- what one operation keeps ----

  predicate IsProgress(e: Event) { e.cmd.Progress? }

  predicate IsWrite(e: Event) { e.cmd.SetValid? || e.cmd.BootFlags? || e.cmd.Mailbox? }

  ghost predicate NoProgress(seg: seq<Event>) {
    forall i :: 0 <= i < |seg| ==> !IsProgress(seg[i])
  }

  ghost predicate WritesOk(seg: seq<Event>) {
    forall i :: 0 <= i < |seg| && IsWrite(seg[i]) ==> seg[i].rc == 0
  }

  ghost predicate NoWrites(seg: seq<Event>) {
    forall i :: 0 <= i < |seg| ==> !IsWrite(seg[i])
  }

  ghost predicate HasWrite(seg: seq<Event>) {
    exists i :: 0 <= i < |seg| && IsWrite(seg[i])
  }

  // The events of one operation, seen as: set-in-progress, a body, perhaps a commit and
  // an acknowledge, set-complete.
  datatype Shape = Shape(open: Event, body: seq<Event>, commit: seq<Event>, tail: seq<Event>, close: Event)

  ghost function Events(sh: Shape): seq<Event> {
    [sh.open] + sh.body + sh.commit + sh.tail + [sh.close]
  }

  // An operation whose set-in-progress was accepted: it is closed by set-complete; a
  // commit is sent exactly when the body has written something and every write of it
  // succeeded; nothing is written after the commit; there is no other progress request.
  ghost predicate Accepted(sh: Shape) {
    && sh.open.cmd == Progress(SetInProgress) && sh.open.rc == 0
    && sh.close.cmd == Progress(SetComplete)
    && NoProgress(sh.body) && NoProgress(sh.tail) && NoWrites(sh.tail)
    && |sh.commit| <= 1 && (sh.commit != [] ==> sh.commit[0].cmd == Progress(CommitWrite))
    && (sh.commit != [] <==> HasWrite(sh.body) && WritesOk(sh.body))
  }

  // What one operation sends and what becomes of use_progress.
  ghost predicate SegmentOk(use0: bool, seg: seq<Event>, use1: bool) {
    if !use0 then !use1 && NoProgress(seg)
    else if seg == [] then use1
    else if seg[0].cmd == Progress(SetInProgress) && seg[0].rc == 0 then
      use1 && exists sh :: Accepted(sh) && seg == Events(sh)
    else
      !use1 && seg[0].cmd == Progress(SetInProgress) && NoProgress(seg[1..])
  }

  // The events an operation added.
  ghost function Added(s: Session, s': Session): seq<Event>
    requires |s.log| <= |s'.log|
  {
    s'.log[|s.log|..]
  }

  ghost predicate OpKeeps(s: Session, s': Session) {
    |s.log| <= |s'.log| && s'.log[..|s.log|] == s.log && SegmentOk(s.useProgress, Added(s, s'), s'.useProgress)
  }

  // Sessions that differ by the events sent in between.
  ghost predicate Grew(s: Session, seg: seq<Event>, s': Session) {
    s'.log == s.log + seg
  }

  lemma GrewAdded(s: Session, seg: seq<Event>, s': Session)
    requires Grew(s, seg, s')
    ensures |s.log| <= |s'.log| && s'.log[..|s.log|] == s.log && Added(s, s') == seg
  {
  }

  // Opening: either nothing is sent, or set-in-progress is, and a refusal is remembered.
  lemma Opens(d: Device, s: Session)
    ensures var s1 := SetProgress(d, s, SetInProgress);
      if !s.useProgress then s1 == s
      else
        var open := Event(Progress(SetInProgress), d(|s.log|));
        Grew(s, [open], s1) && (s1.useProgress <==> open.rc == 0)
  {
  }

  // Later progress requests are sent exactly while use_progress holds.
  lemma Continues(d: Device, s: Session, state: ProgressState)
    requires state != SetInProgress
    ensures var s1 := SetProgress(d, s, state);
      && s1.useProgress == s.useProgress
      && Grew(s, if s.useProgress then [Event(Progress(state), d(|s.log|))] else [], s1)
  {
  }

  // The common course of all three operations: open, body, commit if everything written
  // succeeded, tail, close.
  ghost function Course(d: Device, s: Session, body: seq<Event>, commits: bool, tail: seq<Event>): Session {
    var s1 := SetProgress(d, s, SetInProgress);
    var s2 := s1.(log := s1.log + body);
    var s3 := if commits then SetProgress(d, s2, CommitWrite) else s2;
    var s4 := s3.(log := s3.log + tail);
    SetProgress(d, s4, SetComplete)
  }

  lemma CourseKeeps(d: Device, s: Session, body: seq<Event>, commits: bool, tail: seq<Event>)
    requires NoProgress(body) && NoProgress(tail) && NoWrites(tail)
    requires commits <==> HasWrite(body) && WritesOk(body)
    ensures OpKeeps(s, Course(d, s, body, commits, tail))
  {
    var s' := Course(d, s, body, commits, tail);
    var s1 := SetProgress(d, s, SetInProgress);
    var s2 := s1.(log := s1.log + body);
    var s3 := if commits then SetProgress(d, s2, CommitWrite) else s2;
    var s4 := s3.(log := s3.log + tail);
    Opens(d, s);
    Continues(d, s2, CommitWrite);
    Continues(d, s4, SetComplete);
    if !s.useProgress {
      assert s'.log == s.log + (body + tail);
      GrewAdded(s, body + tail, s');
    } else {
      var open := Event(Progress(SetInProgress), d(|s.log|));
      if open.rc != 0 {
        assert s'.log == s.log + ([open] + (body + tail));
        GrewAdded(s, [open] + (body + tail), s');
        assert ([open] + (body + tail))[1..] == body + tail;
      } else {
        var commit := if commits then [Event(Progress(CommitWrite), d(|s2.log|))] else [];
        var sh := Shape(open, body, commit, tail, Event(Progress(SetComplete), d(|s4.log|)));
        assert Accepted(sh);
        assert s'.log == s.log + Events(sh);
        GrewAdded(s, Events(sh), s');
      }
    }
  }

  // The events a block writer adds: one write per block, up to the first failure.
  ghost function BlockEvents(d: Device, k: nat, bs: seq<Block>): seq<Event>
    decreases |bs|
  {
    if bs == [] then []
    else
      var e := Event(Mailbox(bs[0]), d(k));
      if e.rc != 0 then [e] else [e] + BlockEvents(d, k + 1, bs[1..])
  }

  lemma {:induction false} WriteBlocksAdds(d: Device, s: Session, bs: seq<Block>)
    ensures var (s', rc) := WriteBlocks(d, s, bs);
      s' == s.(log := s.log + BlockEvents(d, |s.log|, bs)) && (rc == 0 <==> WritesOk(BlockEvents(d, |s.log|, bs)))
    decreases |bs|
  {
    if bs != [] {
      var s1 := Send(d, s, Mailbox(bs[0]));
      var e := s1.log[|s.log|];
      if Rc(s1) == 0 {
        WriteBlocksAdds(d, s1, bs[1..]);
        var more := BlockEvents(d, |s1.log|, bs[1..]);
        assert s.log + ([e] + more) == s1.log + more;
        WritesOkCons(e, more);
      } else {
        assert IsWrite(BlockEvents(d, |s.log|, bs)[0]);
      }
    }
  }

  lemma WritesOkCons(e: Event, more: seq<Event>)
    requires IsWrite(e)
    ensures WritesOk([e] + more) <==> e.rc == 0 && WritesOk(more)
  {
    assert ([e] + more)[0] == e;
    assert forall i :: 0 <= i < |more| ==> ([e] + more)[i + 1] == more[i];
  }

  lemma {:induction false} BlockEventsAreWrites(d: Device, k: nat, bs: seq<Block>)
    ensures var seg := BlockEvents(d, k, bs);
      && (forall i :: 0 <= i < |seg| ==> IsWrite(seg[i]))
      && (bs != [] ==> HasWrite(seg))
    decreases |bs|
  {
    if bs != [] {
      assert IsWrite(BlockEvents(d, k, bs)[0]);
      if d(k) == 0 {
        BlockEventsAreWrites(d, k + 1, bs[1..]);
      }
    }
  }

  // ---- the three operations follow the course ----

  // The log a first set-in-progress leaves.
  ghost function Opened(d: Device, s: Session): seq<Event> {
    SetProgress(d, s, SetInProgress).log
  }

  lemma BootvalidKeeps(d: Device, s: Session, setFlag: byte, clrFlag: byte)
    ensures OpKeeps(s, SetBootvalid(d, s, setFlag, clrFlag).0)
  {
    hide ApplyFlags, SetProgress, OpKeeps;
    var k := |Opened(d, s)|;
    var a := Event(Ack(BIOS_POST_ACK), d(k));
    var v := Event(GetValid, d(k + 1));
    var s1 := SetProgress(d, s, SetInProgress);
    if a.rc != 0 {
      assert SetBootvalid(d, s, setFlag, clrFlag).0 == Course(d, s, [a], false, []) by {
        assert s1.log + [a] + [] == s1.log + [a];
      }
      CourseKeeps(d, s, [a], false, []);
    } else if v.rc < 0 {
      assert SetBootvalid(d, s, setFlag, clrFlag).0 == Course(d, s, [a, v], false, []) by {
        assert s1.log + [a] + [v] == s1.log + [a, v] == s1.log + [a, v] + [];
      }
      CourseKeeps(d, s, [a, v], false, []);
    } else {
      var w := Event(SetValid(ApplyFlags(v.rc, setFlag, clrFlag)), d(k + 2));
      var body := [a, v, w];
      assert IsWrite(body[2]);
      var s2 := s1.(log := s1.log + body);
      assert s1.log + [a] + [v] + [w] == s1.log + body;
      var s3 := if w.rc == 0 then SetProgress(d, s2, CommitWrite) else s2;
      assert s3.log + [] == s3.log;
      assert SetBootvalid(d, s, setFlag, clrFlag).0 == Course(d, s, body, w.rc == 0, []);
      CourseKeeps(d, s, body, w.rc == 0, []);
    }
  }

  lemma BootdevKeeps(d: Device, s: Session, arg: Option<string>, iflags: Option<seq<byte>>)
    requires iflags.Some? ==> |iflags.value| == 5
    ensures OpKeeps(s, SetBootdev(d, s, arg, iflags).0)
  {
    hide DeviceBits, DeviceFlags;
    var k := |Opened(d, s)|;
    var a := Event(Ack(BIOS_POST_ACK), d(k));
    var s1 := SetProgress(d, s, SetInProgress);
    if a.rc < 0 || DeviceBits(arg).None? {
      assert SetBootdev(d, s, arg, iflags).0 == Course(d, s, [a], false, []) by {
        assert s1.log + [a] + [] == s1.log + [a];
      }
      CourseKeeps(d, s, [a], false, []);
    } else {
      var w := Event(BootFlags(DeviceFlags(iflags, DeviceBits(arg).value)), d(k + 1));
      var body := [a, w];
      assert IsWrite(body[1]);
      var s2 := s1.(log := s1.log + body);
      assert s1.log + [a] + [w] == s1.log + body;
      var s3 := if w.rc == 0 then SetProgress(d, s2, CommitWrite) else s2;
      assert s3.log + [] == s3.log;
      assert SetBootdev(d, s, arg, iflags).0 == Course(d, s, body, w.rc == 0, []);
      CourseKeeps(d, s, body, w.rc == 0, []);
    }
  }

  lemma PlannedIsNotEmpty(block: int, iana: Option<int>, data: MailboxData)
    requires PlannedBlocks(block, iana, data).Some?
    ensures PlannedBlocks(block, iana, data).value != []
  {
    assert Payload(data).value != [];
  }

  // A whole-mailbox write whose blocks were all accepted has sent, in order, exactly the
  // planned blocks, and reading those gives the IANA number and the payload.
  lemma WholeMailboxReadsBack(d: Device, s: Session, block: int, iana: Option<int>, data: MailboxData)
    requires block < 0 && PlannedBlocks(block, iana, data).Some?
    ensures var bs := PlannedBlocks(block, iana, data).value;
      WriteBlocks(d, s, bs).1 == 0 ==> WriteBlocks(d, s, bs).0.log == s.log + seq(|bs|, i requires 0 <= i < |bs| => Event(Mailbox(bs[i]), 0))
    ensures var bs := PlannedBlocks(block, iana, data).value;
      && bs != [] && Readable(bs) && ExtractAll(bs) == Payload(data).value
      && |bs[0].data| >= IANA_SZ && FromIana24(bs[0].data) == iana.value % 0x100_0000
  {
    var bs := PlannedBlocks(block, iana, data).value;
    PlannedIsNotEmpty(block, iana, data);
    assert Payload(data).value != [];
    MailboxRoundTrip(Payload(data).value, iana.value);
    assert bs[0].selector == 0;
    WritesAll(d, s, bs);
  }

  lemma {:induction false} WritesAll(d: Device, s: Session, bs: seq<Block>)
    ensures WriteBlocks(d, s, bs).1 == 0 ==>
      WriteBlocks(d, s, bs).0.log == s.log + seq(|bs|, i requires 0 <= i < |bs| => Event(Mailbox(bs[i]), 0))
    decreases |bs|
  {
    if bs != [] {
      WritesAll(d, Send(d, s, Mailbox(bs[0])), bs[1..]);
    }
  }

  lemma MailboxKeeps(d: Device, s: Session, block: int, iana: Option<int>, data: MailboxData)
    ensures OpKeeps(s, SetBootmailbox(d, s, block, iana, data).0)
  {
    hide PlannedBlocks, BlockEvents, WriteBlocks;
    var planned := PlannedBlocks(block, iana, data);
    var s' := SetBootmailbox(d, s, block, iana, data).0;
    if planned.None? {
      GrewAdded(s, [], s);
    } else {
      var s1 := SetProgress(d, s, SetInProgress);
      var body := BlockEvents(d, |s1.log|, planned.value);
      PlannedIsNotEmpty(block, iana, data);
      WriteBlocksAdds(d, s1, planned.value);
      BlockEventsAreWrites(d, |s1.log|, planned.value);
      var (s2, rc) := WriteBlocks(d, s1, planned.value);
      if rc != 0 {
        assert s2.log + [] == s2.log;
        assert s' == Course(d, s, body, false, []);
        CourseKeeps(d, s, body, false, []);
      } else {
        var s3 := SetProgress(d, s2, CommitWrite);
        var a := Event(Ack(BIOS_POST_ACK + OS_LOADER_ACK), d(|s3.log|));
        assert s' == Course(d, s, body, true, [a]);
        CourseKeeps(d, s, body, true, [a]);
      }
    }
  }

  // ---- what a bad acknowledge does ----

  ghost predicate SentFlags(s: Session, s': Session) {
    exists i :: |s.log| <= i < |s'.log| && s'.log[i].cmd.BootFlags?
  }

  ghost predicate SentValid(s: Session, s': Session) {
    exists i :: |s.log| <= i < |s'.log| && s'.log[i].cmd.SetValid?
  }

  // Setting the boot device goes on unless the acknowledge got no response: it sends the
  // flags after a refused acknowledge too, and then returns what they were answered.
  lemma BootdevSendsIff(d: Device, s: Session, arg: Option<string>, iflags: Option<seq<byte>>)
    requires iflags.Some? ==> |iflags.value| == 5
    ensures var k, (s', rc) := |Opened(d, s)|, SetBootdev(d, s, arg, iflags);
      && (SentFlags(s, s') <==> d(k) >= 0 && DeviceBits(arg).Some?)
      && rc == if d(k) < 0 then d(k) else if DeviceBits(arg).None? then -1 else d(k + 1)
  {
    hide DeviceBits, DeviceFlags;
    var k, s' := |Opened(d, s)|, SetBootdev(d, s, arg, iflags).0;
    if d(k) >= 0 && DeviceBits(arg).Some? {
      assert s'.log[k + 1].cmd.BootFlags?;
    }
  }

  // Setting the valid flags ends with any acknowledge but an accepted one, and returns
  // its code.
  lemma BootvalidSendsIff(d: Device, s: Session, setFlag: byte, clrFlag: byte)
    ensures var k, (s', rc) := |Opened(d, s)|, SetBootvalid(d, s, setFlag, clrFlag);
      && (SentValid(s, s') <==> d(k) == 0 && d(k + 1) >= 0)
      && rc == if d(k) != 0 then d(k) else if d(k + 1) < 0 then d(k + 1) else d(k + 2)
  {
    hide ApplyFlags;
    var k, s' := |Opened(d, s)|, SetBootvalid(d, s, setFlag, clrFlag).0;
    if d(k) == 0 && d(k + 1) >= 0 {
      assert s'.log[k + 2].cmd.SetValid?;
    }
  }

  // Whatever the device answers, every operation keeps the protocol.
  lemma EveryOpKeeps(d: Device, s: Session, op: Op)
    requires op.OpDev? && op.iflags.Some? ==> |op.iflags.value| == 5
    ensures OpKeeps(s, Do(d, s, op).0)
  {
    match op
    case OpValid(setFlag, clrFlag) => BootvalidKeeps(d, s, setFlag, clrFlag);
    case OpDev(arg, iflags) => BootdevKeeps(d, s, arg, iflags);
    case OpMailbox(block, iana, data) => MailboxKeeps(d, s, block, iana, data);
  }
}
