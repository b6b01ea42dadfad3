// What the requests of the boot option operations mean: the device that boot flags select,
// the valid bits that change, and the commands sent, in order.
module BootCommands {
  import opened Bytes
  import opened BootMailbox
  import opened BootProtocol

  // ---- the boot device selector, as the boot parameters are read ----

  datatype BootDevice =
    | NoOverride | Pxe | HardDrive | HardDriveSafe | DiagnosticPartition | CdRom | Setup
    | RemoteFloppy | RemoteCdRom | RemoteMedia | RemoteHardDrive | Floppy
    | FlagError

  const BF2_BOOTDEV_MASK: bv8 := 0x3c

  // What the bits of boot flags byte 1 under the mask mean.
  function SelectedDevice(flags: bv8): BootDevice {
    match flags & BF2_BOOTDEV_MASK
    case 0x00 => NoOverride
    case 0x04 => Pxe
    case 0x08 => HardDrive
    case 0x0c => HardDriveSafe
    case 0x10 => DiagnosticPartition
    case 0x14 => CdRom
    case 0x18 => Setup
    case 0x1c => RemoteFloppy
    case 0x20 => RemoteCdRom
    case 0x24 => RemoteMedia
    case 0x2c => RemoteHardDrive
    case 0x3c => Floppy
    case _ => FlagError
  }

  // The device a name stands for, as the help describes it. All names but "none" may be
  // preceded by "force_".
  function NamedDevice(name: string): Option<BootDevice> {
    if name == "none" then Some(NoOverride)
    else
      var short := if |name| >= 6 && name[..6] == "force_" then name[6..] else name;
      if short == "pxe" then Some(Pxe)
      else if short == "disk" then Some(HardDrive)
      else if short == "safe" then Some(HardDriveSafe)
      else if short == "diag" then Some(DiagnosticPartition)
      else if short == "cdrom" then Some(CdRom)
      else if short == "bios" then Some(Setup)
      else if short == "floppy" then Some(Floppy)
      else if short == "remotecd" then Some(RemoteCdRom)
      else None
  }

  // Without a name there is nothing to override.
  function WantedDevice(arg: Option<string>): Option<BootDevice> {
    if arg.None? then Some(NoOverride) else NamedDevice(arg.value)
  }

  // The codes of the devices that have names.
  ghost predicate HasCode(dev: BootDevice, code: byte) {
    match dev
    case NoOverride => code == 0x00
    case Pxe => code == 0x04
    case HardDrive => code == 0x08
    case HardDriveSafe => code == 0x0c
    case DiagnosticPartition => code == 0x10
    case CdRom => code == 0x14
    case Setup => code == 0x18
    case RemoteCdRom => code == 0x20
    case Floppy => code == 0x3c
    case _ => false
  }

  lemma CodeIsRead(dev: BootDevice, code: byte)
    requires HasCode(dev, code)
    ensures code as bv8 & BF2_BOOTDEV_MASK == code as bv8 && SelectedDevice(code as bv8) == dev
  {
  }

  lemma NamesKnown(arg: Option<string>)
    ensures DeviceBits(arg).Some? <==> WantedDevice(arg).Some?
    ensures DeviceBits(arg).Some? ==> HasCode(WantedDevice(arg).value, DeviceBits(arg).value)
  {
    if arg.Some? {
      var a := arg.value;
      assert "floppy"[..6][1] == 'l' && "remotecd"[..6][0] == 'r' && "force_"[0] == 'f' && "force_"[1] == 'o';
      Forced(a, "pxe", "force_pxe");
      Forced(a, "disk", "force_disk");
      Forced(a, "safe", "force_safe");
      Forced(a, "diag", "force_diag");
      Forced(a, "cdrom", "force_cdrom");
      Forced(a, "bios", "force_bios");
      Forced(a, "floppy", "force_floppy");
      Forced(a, "remotecd", "force_remotecd");
    }
  }

  lemma Forced(name: string, short: string, full: string)
    requires full == "force_" + short
    ensures name == full <==> |name| >= 6 && name[..6] == "force_" && name[6..] == short
  {
    if |name| >= 6 && name[..6] == "force_" && name[6..] == short {
      assert name == name[..6] + name[6..];
    }
  }

  lemma BackToBits(c: bv8)
    ensures (c as int) as bv8 == c
  {
  }

  lemma OrIs(a: byte, b: byte)
    ensures OrByte(a, b) as bv8 == (a as bv8) | (b as bv8)
  {
    BackToBits((a as bv8) | (b as bv8));
  }

  // Five bytes that ask for a device, given the caller's flags: bit 7 of byte 0 says that
  // they are valid; byte 1 selects the device, unless the caller's flags select another;
  // all other bits are the caller's.
  ghost predicate AsksFor(arg: Option<string>, iflags: seq<byte>, sent: seq<byte>)
    requires |iflags| == 5
  {
    && WantedDevice(arg).Some? && |sent| == 5 && sent[2..] == iflags[2..]
    && sent[0] as bv8 == iflags[0] as bv8 | 0x80
    && sent[1] as bv8 & !BF2_BOOTDEV_MASK == iflags[1] as bv8 & !BF2_BOOTDEV_MASK
    && iflags[1] as bv8 & sent[1] as bv8 == iflags[1] as bv8
    && (iflags[1] as bv8 & BF2_BOOTDEV_MASK == 0 ==> SelectedDevice(sent[1] as bv8) == WantedDevice(arg).value)
  }

  ghost function CallersFlags(iflags: Option<seq<byte>>): (f: seq<byte>)
    requires iflags.Some? ==> |iflags.value| == 5
    ensures |f| == 5
  {
    if iflags.Some? then iflags.value else [0, 0, 0, 0, 0]
  }

  lemma FlagsAskFor(arg: Option<string>, iflags: Option<seq<byte>>)
    requires (iflags.Some? ==> |iflags.value| == 5) && DeviceBits(arg).Some?
    ensures AsksFor(arg, CallersFlags(iflags), DeviceFlags(iflags, DeviceBits(arg).value))
  {
    NamesKnown(arg);
    hide DeviceBits, NamedDevice, WantedDevice, OrByte, SelectedDevice, HasCode;
    var f, bits := CallersFlags(iflags), DeviceBits(arg).value;
    CodeIsRead(WantedDevice(arg).value, bits);
    ValidBit(f[0]);
    BytesAskFor(WantedDevice(arg).value, f[1], bits);
    var sent := DeviceFlags(iflags, bits);
    assert sent[2..] == f[2..] && sent[0] == OrByte(f[0], 0x80) && sent[1] == OrByte(f[1], bits);
    hide DeviceFlags;
  }

  lemma ValidBit(f: byte)
    ensures OrByte(f, 0x80) as bv8 == f as bv8 | 0x80
  {
    OrIs(f, 0x80);
  }

  lemma BytesAskFor(dev: BootDevice, f: byte, bits: byte)
    requires bits as bv8 & BF2_BOOTDEV_MASK == bits as bv8 && SelectedDevice(bits as bv8) == dev
    ensures var r := OrByte(f, bits) as bv8;
      && r & !BF2_BOOTDEV_MASK == f as bv8 & !BF2_BOOTDEV_MASK && f as bv8 & r == f as bv8
      && (f as bv8 & BF2_BOOTDEV_MASK == 0 ==> SelectedDevice(r) == dev)
  {
    hide OrByte, SelectedDevice;
    OrIs(f, bits);
    SelectorOf(f as bv8, bits as bv8);
  }

  lemma SelectorOf(f: bv8, bits: bv8)
    requires bits & BF2_BOOTDEV_MASK == bits
    ensures (f | bits) & !BF2_BOOTDEV_MASK == f & !BF2_BOOTDEV_MASK && f & (f | bits) == f
    ensures f & BF2_BOOTDEV_MASK == 0 ==> SelectedDevice(f | bits) == SelectedDevice(bits)
  {
    assert f & BF2_BOOTDEV_MASK == 0 ==> (f | bits) & BF2_BOOTDEV_MASK == bits & BF2_BOOTDEV_MASK;
  }

  // ---- the valid bits ----

  function BitMask(i: nat): bv8
    requires i < 8
  {
    match i
    case 0 => 0x01
    case 1 => 0x02
    case 2 => 0x04
    case 3 => 0x08
    case 4 => 0x10
    case 5 => 0x20
    case 6 => 0x40
    case 7 => 0x80
  }

  predicate HasBit(b: bv8, i: nat)
    requires i < 8
  {
    b & BitMask(i) != 0
  }

  // Exactly the bits to be set, and those of the old flags that are not to be cleared.
  ghost predicate BitsChanged(was: bv8, setFlag: bv8, clrFlag: bv8, now: bv8) {
    forall i: nat :: i < 8 ==> (HasBit(now, i) <==> HasBit(setFlag, i) || (HasBit(was, i) && !HasBit(clrFlag, i)))
  }

  lemma OneBit(v: bv8, s: bv8, c: bv8, i: nat)
    requires i < 8
    ensures ((v & !c) | s) & BitMask(i) != 0 <==> s & BitMask(i) != 0 || (v & BitMask(i) != 0 && c & BitMask(i) == 0)
  {
  }

  lemma ApplyIs(v: byte, s: byte, c: byte)
    ensures ApplyFlags(v, s, c) as bv8 == (v as bv8 & !(c as bv8)) | s as bv8
  {
    BackToBits((v as bv8 & !(c as bv8)) | s as bv8);
  }

  lemma FlagsAreApplied(was: byte, setFlag: byte, clrFlag: byte)
    ensures BitsChanged(was as bv8, setFlag as bv8, clrFlag as bv8, ApplyFlags(was, setFlag, clrFlag) as bv8)
  {
    hide ApplyFlags, BitsChanged;
    ApplyIs(was, setFlag, clrFlag);
    BitsAreChanged(was as bv8, setFlag as bv8, clrFlag as bv8);
  }

  lemma BitsAreChanged(v: bv8, s: bv8, c: bv8)
    ensures BitsChanged(v, s, c, (v & !c) | s)
  {
    hide BitMask;
    forall i: nat | i < 8 ensures HasBit((v & !c) | s, i) <==> HasBit(s, i) || (HasBit(v, i) && !HasBit(c, i)) {
      OneBit(v, s, c, i);
    }
  }

  // ---- the commands, in order ----

  ghost function Commands(seg: seq<Event>): (c: seq<Command>)
    ensures |c| == |seg|
  {
    seq(|seg|, i requires 0 <= i < |seg| => seg[i].cmd)
  }

  // A body between the progress requests: set-in-progress comes first while it is in use;
  // only if it is accepted, commit and set-complete follow.
  ghost function Framed(d: Device, s: Session, body: seq<Command>, commits: bool, tail: seq<Command>): seq<Command> {
    var accepted := s.useProgress && d(|s.log|) == 0;
    (if s.useProgress then [Progress(SetInProgress)] else [])
    + body
    + (if accepted && commits then [Progress(CommitWrite)] else [])
    + tail
    + (if accepted then [Progress(SetComplete)] else [])
  }

  lemma CourseIsFramed(d: Device, s: Session, body: seq<Event>, commits: bool, tail: seq<Event>)
    ensures var s' := Course(d, s, body, commits, tail);
      && |s.log| <= |s'.log| && s'.log[..|s.log|] == s.log
      && Commands(Added(s, s')) == Framed(d, s, Commands(body), commits, Commands(tail))
  {
    var s' := Course(d, s, body, commits, tail);
    var s1 := SetProgress(d, s, SetInProgress);
    var s2 := s1.(log := s1.log + body);
    var s3 := if commits then SetProgress(d, s2, CommitWrite) else s2;
    var s4 := s3.(log := s3.log + tail);
    Opens(d, s);
    Continues(d, s2, CommitWrite);
    Continues(d, s4, SetComplete);
    hide SetProgress, Commands;
    var open := if s.useProgress then [Event(Progress(SetInProgress), d(|s.log|))] else [];
    var commit := if s1.useProgress && commits then [Event(Progress(CommitWrite), d(|s2.log|))] else [];
    var close := if s1.useProgress then [Event(Progress(SetComplete), d(|s4.log|))] else [];
    var seg := open + body + commit + tail + close;
    assert s1.log == s.log + open && s3.log == s2.log + commit && s'.log == s4.log + close;
    FiveParts(s.log, open, body, commit, tail, close);
    GrewAdded(s, seg, s');
    CommandsOfParts(open, body, commit, tail, close);
    CommandsOfFew();
  }

  lemma FiveParts(log: seq<Event>, a: seq<Event>, b: seq<Event>, c: seq<Event>, e: seq<Event>, f: seq<Event>)
    ensures ((((log + a) + b) + c) + e) + f == log + (a + b + c + e + f)
  {
  }

  lemma CommandsAppend(a: seq<Event>, b: seq<Event>)
    ensures Commands(a + b) == Commands(a) + Commands(b)
  {
  }

  lemma CommandsOfParts(a: seq<Event>, b: seq<Event>, c: seq<Event>, e: seq<Event>, f: seq<Event>)
    ensures Commands(a + b + c + e + f) == Commands(a) + Commands(b) + Commands(c) + Commands(e) + Commands(f)
  {
    hide Commands;
    CommandsAppend(a + b + c + e, f);
    CommandsAppend(a + b + c, e);
    CommandsAppend(a + b, c);
    CommandsAppend(a, b);
  }

  lemma CommandsOfFew()
    ensures Commands([]) == [] && forall e: Event :: Commands([e]) == [e.cmd]
    ensures forall e: Event, f: Event :: Commands([e, f]) == [e.cmd, f.cmd]
    ensures forall e: Event, f: Event, g: Event :: Commands([e, f, g]) == [e.cmd, f.cmd, g.cmd]
  {
  }

  // Setting the boot device: the acknowledge of the BIOS, and unless there was no response
  // or the name is unknown, flags that ask for the device.
  lemma BootdevCommands(d: Device, s: Session, arg: Option<string>, iflags: Option<seq<byte>>)
    requires iflags.Some? ==> |iflags.value| == 5
    ensures var k, s' := |Opened(d, s)|, SetBootdev(d, s, arg, iflags).0;
      && |s.log| <= |s'.log| && s'.log[..|s.log|] == s.log
      && if d(k) >= 0 && WantedDevice(arg).Some? then
           (exists sent :: AsksFor(arg, CallersFlags(iflags), sent)
              && Commands(Added(s, s')) == Framed(d, s, [Ack(1), BootFlags(sent)], d(k + 1) == 0, []))
         else Commands(Added(s, s')) == Framed(d, s, [Ack(1)], false, [])
  {
    NamesKnown(arg);
    hide DeviceBits, DeviceFlags, AsksFor, NamedDevice, SetProgress, Framed;
    var k := |Opened(d, s)|;
    var a := Event(Ack(1), d(k));
    var s1 := SetProgress(d, s, SetInProgress);
    CommandsOfFew();
    if d(k) < 0 || WantedDevice(arg).None? {
      assert s1.log + [a] + [] == s1.log + [a];
      assert SetBootdev(d, s, arg, iflags).0 == Course(d, s, [a], false, []);
      CourseIsFramed(d, s, [a], false, []);
    } else {
      var sent := DeviceFlags(iflags, DeviceBits(arg).value);
      FlagsAskFor(arg, iflags);
      var w := Event(BootFlags(sent), d(k + 1));
      assert s1.log + [a] + [w] == s1.log + [a, w];
      var s2 := s1.(log := s1.log + [a, w]);
      var s3 := if w.rc == 0 then SetProgress(d, s2, CommitWrite) else s2;
      assert s3.log + [] == s3.log;
      assert SetBootdev(d, s, arg, iflags).0 == Course(d, s, [a, w], w.rc == 0, []);
      CourseIsFramed(d, s, [a, w], w.rc == 0, []);
    }
  }

  // Any boot flags sent ask for the device; with an unknown name none are sent, and the
  // result is negative.
  ghost predicate FlagsFit(s: Session, s': Session, rc: int, arg: Option<string>, iflags: Option<seq<byte>>)
    requires iflags.Some? ==> |iflags.value| == 5
  {
    && (WantedDevice(arg).None? ==> rc < 0)
    && forall i :: |s.log| <= i < |s'.log| && s'.log[i].cmd.BootFlags? ==> AsksFor(arg, CallersFlags(iflags), s'.log[i].cmd.bytes)
  }

  lemma FlagsOf(d: Device, s: Session, sent: seq<byte>, commits: bool)
    ensures forall c :: c in Framed(d, s, [Ack(1), BootFlags(sent)], commits, []) && c.BootFlags? ==> c.bytes == sent
    ensures forall c :: c in Framed(d, s, [Ack(1)], commits, []) ==> !c.BootFlags?
  {
  }

  lemma FlagsSentFit(d: Device, s: Session, arg: Option<string>, iflags: Option<seq<byte>>)
    requires iflags.Some? ==> |iflags.value| == 5
    ensures var (s', rc) := SetBootdev(d, s, arg, iflags); FlagsFit(s, s', rc, arg, iflags)
  {
    NamesKnown(arg);
    hide AsksFor, DeviceBits, NamedDevice, WantedDevice, SetBootdev, SetProgress, Framed;
    BootdevSendsIff(d, s, arg, iflags);
    BootdevCommands(d, s, arg, iflags);
    var k, s' := |Opened(d, s)|, SetBootdev(d, s, arg, iflags).0;
    if d(k) >= 0 && WantedDevice(arg).Some? {
      var sent :| AsksFor(arg, CallersFlags(iflags), sent)
        && Commands(Added(s, s')) == Framed(d, s, [Ack(1), BootFlags(sent)], d(k + 1) == 0, []);
      FlagsOf(d, s, sent, d(k + 1) == 0);
    } else {
      FlagsOf(d, s, [], false);
    }
    forall i | |s.log| <= i < |s'.log| && s'.log[i].cmd.BootFlags?
      ensures AsksFor(arg, CallersFlags(iflags), s'.log[i].cmd.bytes)
    {
      assert s'.log[i].cmd == Commands(Added(s, s'))[i - |s.log|];
      assert s'.log[i].cmd in Commands(Added(s, s'));
    }
  }

  // What is sent when the old flags could be read: the valid flags sent are the changed ones.
  ghost predicate SetsValid(d: Device, s: Session, s': Session, k: nat, setFlag: byte, clrFlag: byte, now: byte)
    requires |s.log| <= |s'.log| && 0 <= d(k + 1)
  {
    && BitsChanged(d(k + 1) as bv8, setFlag as bv8, clrFlag as bv8, now as bv8)
    && Commands(Added(s, s')) == Framed(d, s, [Ack(1), GetValid, SetValid(now)], d(k + 2) == 0, [])
  }

  // Setting the valid flags: the same acknowledge, the old flags, and the changed ones.
  lemma BootvalidCommands(d: Device, s: Session, setFlag: byte, clrFlag: byte)
    ensures var k, s' := |Opened(d, s)|, SetBootvalid(d, s, setFlag, clrFlag).0;
      && |s.log| <= |s'.log| && s'.log[..|s.log|] == s.log
      && if d(k) != 0 then Commands(Added(s, s')) == Framed(d, s, [Ack(1)], false, [])
         else if d(k + 1) < 0 then Commands(Added(s, s')) == Framed(d, s, [Ack(1), GetValid], false, [])
         else exists now: byte :: SetsValid(d, s, s', k, setFlag, clrFlag, now)
  {
    hide ApplyFlags, BitsChanged, SetProgress, Framed;
    var k := |Opened(d, s)|;
    var a, v := Event(Ack(1), d(k)), Event(GetValid, d(k + 1));
    var s1 := SetProgress(d, s, SetInProgress);
    CommandsOfFew();
    if d(k) != 0 {
      assert s1.log + [a] + [] == s1.log + [a];
      assert SetBootvalid(d, s, setFlag, clrFlag).0 == Course(d, s, [a], false, []);
      CourseIsFramed(d, s, [a], false, []);
    } else if d(k + 1) < 0 {
      assert s1.log + [a] + [v] == s1.log + [a, v] == s1.log + [a, v] + [];
      assert SetBootvalid(d, s, setFlag, clrFlag).0 == Course(d, s, [a, v], false, []);
      CourseIsFramed(d, s, [a, v], false, []);
    } else {
      BootvalidSets(d, s, setFlag, clrFlag);
    }
  }

  lemma BootvalidSets(d: Device, s: Session, setFlag: byte, clrFlag: byte)
    requires var k := |Opened(d, s)|; d(k) == 0 && d(k + 1) >= 0
    ensures var s' := SetBootvalid(d, s, setFlag, clrFlag).0;
      && |s.log| <= |s'.log| && s'.log[..|s.log|] == s.log
      && SetsValid(d, s, s', |Opened(d, s)|, setFlag, clrFlag, ApplyFlags(d(|Opened(d, s)| + 1), setFlag, clrFlag))
  {
    hide ApplyFlags, BitsChanged, SetProgress, Framed;
    var k := |Opened(d, s)|;
    var a, v, s1 := Event(Ack(1), d(k)), Event(GetValid, d(k + 1)), SetProgress(d, s, SetInProgress);
    var now := ApplyFlags(v.rc, setFlag, clrFlag);
    CommandsOfFew();
    FlagsAreApplied(v.rc, setFlag, clrFlag);
    var w := Event(SetValid(now), d(k + 2));
    assert s1.log + [a] + [v] + [w] == s1.log + [a, v, w];
    var s2 := s1.(log := s1.log + [a, v, w]);
    var s3 := if w.rc == 0 then SetProgress(d, s2, CommitWrite) else s2;
    assert s3.log + [] == s3.log;
    assert SetBootvalid(d, s, setFlag, clrFlag).0 == Course(d, s, [a, v, w], w.rc == 0, []);
    CourseIsFramed(d, s, [a, v, w], w.rc == 0, []);
  }

  // Writing to the mailbox: nothing for bad arguments; otherwise the planned blocks up to
  // the first failure, and if there was none, the acknowledges of BIOS and OS loader.
  lemma MailboxCommands(d: Device, s: Session, block: int, iana: Option<int>, data: MailboxData)
    ensures var s', planned := SetBootmailbox(d, s, block, iana, data).0, PlannedBlocks(block, iana, data);
      && |s.log| <= |s'.log| && s'.log[..|s.log|] == s.log
      && if planned.None? then Commands(Added(s, s')) == []
         else
           var sent := BlockEvents(d, |Opened(d, s)|, planned.value);
           var written := WritesOk(sent);
           Commands(Added(s, s')) == Framed(d, s, Commands(sent), written, if written then [Ack(3)] else [])
  {
    hide PlannedBlocks, BlockEvents, WriteBlocks, WritesOk, Framed, SetProgress;
    var planned := PlannedBlocks(block, iana, data);
    CommandsOfFew();
    if planned.None? {
      GrewAdded(s, [], s);
    } else {
      var s1 := SetProgress(d, s, SetInProgress);
      var body := BlockEvents(d, |s1.log|, planned.value);
      WriteBlocksAdds(d, s1, planned.value);
      var (s2, rc) := WriteBlocks(d, s1, planned.value);
      if rc != 0 {
        assert s2.log + [] == s2.log;
        assert SetBootmailbox(d, s, block, iana, data).0 == Course(d, s, body, false, []);
        CourseIsFramed(d, s, body, false, []);
      } else {
        var s3 := SetProgress(d, s2, CommitWrite);
        var a := Event(Ack(BIOS_POST_ACK + OS_LOADER_ACK), d(|s3.log|));
        assert SetBootmailbox(d, s, block, iana, data).0 == Course(d, s, body, true, [a]);
        CourseIsFramed(d, s, body, true, [a]);
      }
    }
  }

  // When a mailbox write is planned, and with which bytes: a text with its terminator, or
  // all arguments, each of them a byte; one block, or as many as an IANA number and the
  // bytes fill, 256 at most.
  lemma MailboxPlanned(block: int, iana: Option<int>, data: MailboxData)
    ensures var p := Payload(data);
      && (data.NoData? ==> p.None?)
      && (data.Text? ==> p == Some(data.text + [0]))
      && (data.ByteArgs? ==> (p.Some? <==> data.args != [] && forall i :: 0 <= i < |data.args| ==> data.args[i].Some?))
      && (data.ByteArgs? && p.Some? ==> |p.value| == |data.args| && forall i :: 0 <= i < |data.args| ==> data.args[i] == Some(p.value[i]))
      && (PlannedBlocks(block, iana, data).Some? <==> iana.Some? && p.Some? && (block >= 0 || |p.value| + 3 <= 16 * 256))
      && (PlannedBlocks(block, iana, data).Some? && block >= 0 ==>
            var room := if block == 0 then 13 else 16;
            PlannedBlocks(block, iana, data).value ==
              [Block(block % 0x100, (if block == 0 then Iana24(iana.value) else []) + p.value[..Min(|p.value|, room)])])
  {
    if iana.Some? && Payload(data).Some? && block >= 0 {
      var p := Payload(data).value;
      SplitFirst(p, block, 1, iana.value, Min(|p|, Capacity(block)));
    }
  }
}
