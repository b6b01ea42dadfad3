// Editing a field on a device: the rebuilt image written back by write_fru_area.
module FruRoundTrip {
  import opened Bytes
  import opened FruLayout
  import opened FruMove
  import opened FruRelocate
  import opened FruRebuild
  import opened FruDevice
  import opened FruWrite

  // A complete write that met no protected bloc leaves the source on the device.
  lemma CompleteWriteStores(c: Config, s: State, answers: seq<WriteAnswer>)
    requires Inv(c, s) && EvenRange(c, 0) && NeverShifts(c, 0, s.max) && s.dst == 0 && s.src == 0 && c.finish <= |c.src|
    requires var t := Run(c, s, answers); t.final.dst == c.finish && NoneProtected(t.log)
    ensures c.finish <= |Run(c, s, answers).final.mem| == |s.mem|
    ensures Run(c, s, answers).final.mem[..c.finish] == c.src[..c.finish]
    ensures Run(c, s, answers).final.mem[c.finish..] == s.mem[c.finish..]
  {
    RunEffect(c, s, answers);
    var t := Run(c, s, answers);
    forall i | 0 <= i < c.finish ensures t.final.mem[i] == c.src[i] {
      assert !Protected(t.log, i);
    }
  }

  ghost predicate NoneProtected(log: seq<Request>) {
    forall k :: 0 <= k < |log| ==> log[k].answer != Ccode(CC_WRITE_PROTECTED)
  }

  // The size field of the local fru_info has sixteen bits.
  ghost function NewSizeOf(ed: Edit): nat
    requires ed.f < |ed.sec.fields|
  {
    NewSize(ed) % 0x1_0000
  }

  // The write-back of an edit: the image is the front of what is written (behind it the
  // code may read a few bytes more), as much as the new size says, from the start, to a
  // device that has all the bytes of the old and the edited areas.
  ghost predicate WritesBack(ed: Edit, img: seq<byte>, c: Config, s: State)
    requires EditOk(ed)
  {
    && img <= c.src && c.finish == NewSizeOf(ed)
    && ed.size <= |s.mem| && Ho(ed) + SectionLength(ed) + 8 * Cnt(ed) <= |s.mem|
    && Inv(c, s) && s.dst == 0 && s.src == 0
    && EvenRange(c, 0) && NeverShifts(c, 0, s.max)
  }

  // Byte x of the section either arrived or did not have to.
  ghost predicate Arrived(ed: Edit, img: seq<byte>, before: seq<byte>, log: seq<Request>)
    requires EditOk(ed)
  {
    forall x :: 0 <= x < |img| && x < |before| && InSection(ed, x) ==> Delivered(log, x) || before[x] == img[x]
  }

  // For every device and every run, complete or not: the device holds the edited section
  // if and only if each of its bytes was delivered by an accepted request or was the same
  // before.
  lemma EditArrivesIff(ed: Edit, img0: seq<byte>, c: Config, s: State, answers: seq<WriteAnswer>)
    requires EditOk(ed) && |img0| == Room(ed) && ed.size <= |img0| && img0[..ed.size] == ed.orig[..ed.size]
    requires WritesBack(ed, NewImage(ed, img0), c, s)
    ensures var t := Run(c, s, answers);
      SectionReplaced(ed, t.final.mem) <==> Arrived(ed, NewImage(ed, img0), s.mem, t.log)
  {
    hide NewImage, Run, SectionReplaced, NeverShifts, Storable, SectionAt, Delivered, AreasOk;
    var t, img := Run(c, s, answers), NewImage(ed, img0);
    RunStores(c, s, answers);
    SectionIsReplaced(ed, img0);
    SectionEndsInside(ed);
    SectionHeldIff(ed, img, t.final.mem);
    forall x | 0 <= x < |img| && x < |s.mem| && InSection(ed, x)
      ensures t.final.mem[x] == img[x] <==> Delivered(t.log, x) || s.mem[x] == img[x]
    {
      assert c.src[x] == img[x];
    }
  }

  // A memory holds the edited section exactly when it agrees with an image that does.
  lemma SectionHeldIff(ed: Edit, img: seq<byte>, mem: seq<byte>)
    requires EditOk(ed) && SectionReplaced(ed, img) && Ho(ed) + SectionLength(ed) + 8 * Cnt(ed) <= |mem|
    ensures SectionReplaced(ed, mem) <==> forall x :: 0 <= x < |img| && x < |mem| && InSection(ed, x) ==> mem[x] == img[x]
  {
    hide EncodeSection, Storable, AreasOk;
    SectionEndsInside(ed);
    var ho, len := Ho(ed), SectionLength(ed) + 8 * Cnt(ed);
    if forall x :: 0 <= x < |img| && x < |mem| && InSection(ed, x) ==> mem[x] == img[x] {
      assert forall x :: ho <= x < ho + len ==> InSection(ed, x);
      assert mem[ho..ho + len] == img[ho..ho + len];
    }
    if SectionReplaced(ed, mem) {
      forall x | 0 <= x < |img| && x < |mem| && InSection(ed, x) ensures mem[x] == img[x] {
        assert mem[ho..ho + len][x - ho] == img[ho..ho + len][x - ho];
      }
    }
  }

  lemma SectionEndsInside(ed: Edit)
    requires EditOk(ed)
    ensures 2 <= SectionLength(ed) + 8 * Cnt(ed)
    ensures Ho(ed) + SectionLength(ed) + 8 * Cnt(ed) <= NewSize(ed) && Ho(ed) + SectionLength(ed) + 8 * Cnt(ed) <= Room(ed)
  {
    hide SectionAt, Storable, AreasOk;
    EditIsShiftable(ed);
  }

  // The whole edit, from the old image to the device: if the write-back was complete and
  // met no protected bloc and the new size did not wrap, every field read back from the
  // device's own memory decodes as it did before, except the edited one, which decodes to
  // the new string; and all other areas stand on the device, with the new header.
  lemma EditReachesDevice(ed: Edit, img0: seq<byte>, c: Config, s: State, answers: seq<WriteAnswer>, k: nat)
    requires EditOk(ed) && |img0| == Room(ed) && ed.size <= |img0| && img0[..ed.size] == ed.orig[..ed.size]
    requires k < |ed.sec.fields| && WritesBack(ed, NewImage(ed, img0), c, s)
    requires var t := Run(c, s, answers); t.final.dst == c.finish && NoneProtected(t.log)
    requires NewSize(ed) < 0x1_0000
    ensures SectionReplaced(ed, Run(c, s, answers).final.mem) && DecodesAsEdited(ed, Run(c, s, answers).final.mem, k)
    ensures |Run(c, s, answers).final.mem| == |s.mem| && OthersKept(ed, Run(c, s, answers).final.mem, NewHeader(ed, img0))
  {
    hide EditOk, NewImage, NewHeader, MovedImage, Run, DecodesAsEdited, SectionReplaced, OthersKept, TailErased, NeverShifts;
    Basics(ed);
    var mem, img := Run(c, s, answers).final.mem, NewImage(ed, img0);
    CompleteWriteStores(c, s, answers);
    SectionIsReplaced(ed, img0);
    SectionEndsInside(ed);
    WriteBackFitsIff(ed);
    SameUpTo(img, c.src, mem, c.finish);
    SectionHeldIff(ed, img, mem);
    EditedFieldsDecode(ed, mem, k);
    OthersAreKept(ed, img0);
    OthersKeptToo(ed, img, mem, NewHeader(ed, img0));
  }

  lemma SameUpTo(img: seq<byte>, src: seq<byte>, mem: seq<byte>, finish: nat)
    requires img <= src && finish <= |mem| && finish <= |src| && mem[..finish] == src[..finish]
    ensures forall x :: 0 <= x < |img| && x < finish ==> mem[x] == img[x]
  {
    assert forall x :: 0 <= x < finish ==> mem[x] == mem[..finish][x] == src[..finish][x];
  }

  // A memory that agrees with an image up to the new size keeps the same areas.
  lemma OthersKeptToo(ed: Edit, img: seq<byte>, mem: seq<byte>, h: seq<byte>)
    requires EditOk(ed) && ed.size <= |img| && ed.size <= |mem| && 0 <= NewSize(ed) <= |mem| && OthersKept(ed, img, h)
    requires forall x :: 0 <= x < |img| && x < NewSize(ed) ==> mem[x] == img[x]
    ensures OthersKept(ed, mem, h)
  {
    hide EditOk, ZeroSum, Stands, InSection;
    Basics(ed);
    SectionEndsInside(ed);
    if Cnt(ed) != 0 {
      assert mem[..8] == img[..8];
      assert forall x :: 8 <= x < Ho(ed) ==> mem[x] == img[x] == img[8..Ho(ed)][x - 8];
      assert mem[8..Ho(ed)] == img[8..Ho(ed)];
      forall i | 0 <= i < 5 && Info(i) && i != ed.e && Present(ed.h, i)
        ensures AreaInside(ed.orig, ed.h, ed.size, i) && Stands(ed.orig, mem, ed.h, Ho(ed), Cnt(ed), i)
      {
        EndsBeforeNewSize(ed, i);
        StandsInBoth(ed.orig, img, mem, ed.h, Ho(ed), Cnt(ed), i, NewSize(ed));
      }
    }
  }

  lemma StandsInBoth(orig: seq<byte>, img: seq<byte>, mem: seq<byte>, h: seq<byte>, ho: nat, cnt: int, i: nat, limit: nat)
    requires |h| == 8 && i < 5 && Start(h, i) + 1 < |orig| && Stands(orig, img, h, ho, cnt, i)
    requires 8 * NewBlk(h, ho, cnt, i) + Length(orig, h, i) <= limit <= |mem|
    requires forall x :: 0 <= x < |img| && x < limit ==> mem[x] == img[x]
    ensures Stands(orig, mem, h, ho, cnt, i)
  {
    hide NewBlk, Length;
    var to, len := 8 * NewBlk(h, ho, cnt, i), Length(orig, h, i);
    assert mem[to..to + len] == img[to..to + len];
  }

  lemma EndsBeforeNewSize(ed: Edit, i: nat)
    requires EditOk(ed) && Cnt(ed) != 0 && Info(i) && i != ed.e && Present(ed.h, i) && AreaInside(ed.orig, ed.h, ed.size, i)
    ensures 8 * NewBlk(ed.h, Ho(ed), Cnt(ed), i) + Length(ed.orig, ed.h, i) <= NewSize(ed)
  {
    hide SectionAt, Storable;
    SectionEndsInside(ed);
    assert Apart(ed.orig, ed.h, i, ed.e);
  }
}
