// What a short read of the old image costs: the editor ignores the result of the read, so
// that it works on the bytes it got, followed by zeros.
module FruShortRead {
  import opened Bytes
  import opened FruLayout
  import opened FruMove
  import opened FruRelocate
  import opened FruRebuild
  import opened FruReadRun

  // The cleared buffer after n of the device's bytes were read into it.
  ghost function OldImage(mem: seq<byte>, n: nat, size: nat): (img: seq<byte>)
    requires n <= size && n <= |mem|
    ensures |img| == size
    ensures forall x :: 0 <= x < size ==> img[x] == if x < n then mem[x] else 0
  {
    mem[..n] + Zeros(size - n)
  }

  lemma ReadIntoZeros(mem: seq<byte>, before: seq<byte>, after: seq<byte>, n: nat, size: nat)
    requires ReadPrefix(mem, 0, before, after, n) && n <= size <= |before| && before[..size] == Zeros(size)
    ensures n <= |mem| && after[..size] == OldImage(mem, n, size) && after[size..] == before[size..]
  {
    assert forall x :: n <= x < |after| ==> after[x] == after[n..][x - n] == before[x];
    assert forall x :: 0 <= x < size ==> before[..size][x] == 0;
    assert n > 0 ==> forall x :: 0 <= x < n ==> after[x] == after[..n][x] == mem[x];
  }

  // How far the read of the whole FRU comes.
  ghost function BytesRead(words: bool, size: nat, mem: seq<byte>, script: seq<ReadAnswer>, served: nat, maxResponse: nat, max: byte): (n: nat)
    requires served <= |script| && maxResponse >= 1
    ensures n <= size
  {
    ReadCall(words, size, Call(mem, script, served, 0, size, maxResponse), max).off
  }

  // ---- the areas the edit is not about ----

  // Another area than the edited one that starts with its own length.
  ghost predicate OtherInfo(ed: Edit, i: nat)
    requires |ed.h| == 8
  {
    i < 5 && Info(i) && i != ed.e && Present(ed.h, i)
  }

  // Without a resize every byte of the FRU outside the section is what it was on the
  // device; with one, every other info area of the device stands at its new offset.
  ghost predicate DeviceKept(ed: Edit, before: seq<byte>, after: seq<byte>)
    requires EditOk(ed) && ed.size <= |before| && ed.size <= |after|
  {
    if Cnt(ed) == 0 then
      forall x :: 0 <= x < ed.size && !InRange(x, Ho(ed), SectionLength(ed)) ==> after[x] == before[x]
    else
      forall i :: 0 <= i < 5 && OtherInfo(ed, i) ==>
        Start(ed.h, i) + 1 < |before| && Stands(before, after, ed.h, Ho(ed), Cnt(ed), i)
  }

  // Of those bytes, the ones that were not read are zero on the device.
  ghost predicate ReadEnough(ed: Edit, before: seq<byte>, n: nat)
    requires EditOk(ed) && ed.size <= |before|
  {
    if Cnt(ed) == 0 then
      forall x :: n <= x < ed.size && !InRange(x, Ho(ed), SectionLength(ed)) ==> before[x] == 0
    else
      forall i, x :: 0 <= i < 5 && OtherInfo(ed, i) && n <= x < ed.size && InArea(ed, i, x) ==> before[x] == 0
  }

  ghost predicate InArea(ed: Edit, i: nat, x: nat)
    requires |ed.h| == 8 && i < 5
  {
    Start(ed.h, i) + 1 < |ed.orig| && InRange(x, Start(ed.h, i), Length(ed.orig, ed.h, i))
  }

  // After an edit that keeps the other areas of the image it worked on: what the device
  // held outside the section survives if and only if everything of it was read, or was
  // zero. A complete read sees to that.
  lemma KeptIffReadEnough(ed: Edit, before: seq<byte>, n: nat, after: seq<byte>, h: seq<byte>)
    requires EditOk(ed) && n <= ed.size <= |before| && ed.orig[..ed.size] == OldImage(before, n, ed.size)
    requires ed.size <= |after| && OthersKept(ed, after, h)
    ensures DeviceKept(ed, before, after) <==> ReadEnough(ed, before, n)
    ensures n == ed.size ==> ReadEnough(ed, before, n)
  {
    hide OldImage, EditOk, Stands, Length, ZeroSum;
    Basics(ed);
    assert forall x :: 0 <= x < ed.size ==> ed.orig[x] == ed.orig[..ed.size][x] == if x < n then before[x] else 0;
    if Cnt(ed) != 0 {
      forall i | 0 <= i < 5 && OtherInfo(ed, i)
        ensures Start(ed.h, i) + 1 < |before|
        ensures Stands(before, after, ed.h, Ho(ed), Cnt(ed), i) <==>
          forall x :: n <= x < ed.size && InArea(ed, i, x) ==> before[x] == 0
      {
        StandsIffRead(ed.orig, before, after, ed.h, Ho(ed), Cnt(ed), i, ed.size, n);
      }
    }
  }

  lemma StandsIffRead(orig: seq<byte>, before: seq<byte>, after: seq<byte>, h: seq<byte>, ho: nat, cnt: int, i: nat, size: nat, n: nat)
    requires |h| == 8 && i < 5 && AreaInside(orig, h, size, i) && n <= size <= |before|
    requires forall x :: 0 <= x < size ==> orig[x] == if x < n then before[x] else 0
    requires Stands(orig, after, h, ho, cnt, i)
    ensures Start(h, i) + 1 < |before| && Length(before, h, i) == Length(orig, h, i)
    ensures Stands(before, after, h, ho, cnt, i) <==>
      forall x :: n <= x < size && InRange(x, Start(h, i), Length(orig, h, i)) ==> before[x] == 0
  {
    hide NewBlk;
    var from, len, to := Start(h, i), Length(orig, h, i), 8 * NewBlk(h, ho, cnt, i);
    assert after[to..to + len] == orig[from..from + len];
    if Stands(before, after, h, ho, cnt, i) {
      forall x | n <= x < size && InRange(x, from, len) ensures before[x] == 0 {
        assert before[from..from + len][x - from] == orig[from..from + len][x - from];
      }
    }
    if forall x :: n <= x < size && InRange(x, from, len) ==> before[x] == 0 {
      assert forall x :: from <= x < from + len ==> InRange(x, from, len) && before[x] == orig[x];
      assert before[from..from + len] == orig[from..from + len];
    }
  }

  // ---- an edit after a short read ----

  // The 24-byte FRU of SomeEditMoves, of which only the first 16 bytes were read: the edit
  // of the chassis field to "BC" needs no resize.
  ghost function CutEdit(mem: seq<byte>): Edit
    requires |mem| >= 24
  {
    Edit(OldImage(mem, 16, 24) + Zeros(OVERREAD), 24, SampleEdit().h, 1, SampleEdit().sec, 0, [66, 67])
  }

  // A device that answers one request with 16 bytes and then falls silent. The edit works
  // on those and loses the product area, whatever device it is that gets the image back.
  lemma ShortReadLoses(mem: seq<byte>)
    requires |mem| >= 24 && mem[..24] == SampleImage()[..24]
    ensures BytesRead(false, 24, mem, [Piece(16, 16)], 0, 34, 0) == 16
    ensures EditOk(CutEdit(mem)) && Present(CutEdit(mem).h, 3) && Start(CutEdit(mem).h, 3) == 16
    ensures forall after, h :: |after| >= 24 && OthersKept(CutEdit(mem), after, h) ==> !DeviceKept(CutEdit(mem), mem, after)
  {
    CutEditOk(mem);
    CutRead(mem);
    SampleBytes();
    hide EditOk, OthersKept, DeviceKept, SampleImage, ReadCall;
    var ed := CutEdit(mem);
    Basics(ed);
    assert mem[16] == mem[..24][16] == 1 && !InRange(16, Ho(ed), SectionLength(ed));
    forall after, h | |after| >= 24 && OthersKept(ed, after, h) ensures !DeviceKept(ed, mem, after) {
      assert ed.orig[..24] == OldImage(mem, 16, 24);
      KeptIffReadEnough(ed, mem, 16, after, h);
    }
  }

  lemma CutRead(mem: seq<byte>)
    requires |mem| >= 24
    ensures BytesRead(false, 24, mem, [Piece(16, 16)], 0, 34, 0) == 16
  {
    var c := Reading(mem, false, 24, false, [Piece(16, 16)]);
    assert FetchOf(mem, false, 0, 24, AnswerAt(c.script, 0)) == Got(16);
    assert FetchOf(mem, false, 16, 24, AnswerAt(c.script, 1)) == Quiet;
    hide FetchOf;
    assert ReadRun(c, 16, 32, 1).off == 16;
    assert ReadRun(c, 0, 32, 0).off == 16;
  }

  lemma CutEditOk(mem: seq<byte>)
    requires |mem| >= 24 && mem[..24] == SampleImage()[..24]
    ensures var ed := CutEdit(mem); EditOk(ed) && Cnt(ed) == 0 && Ho(ed) == 8 && SectionLength(ed) == 8
  {
    SampleSection();
    SampleBytes();
    hide SampleImage, OldImage;
    var ed := CutEdit(mem);
    assert forall x :: 0 <= x < 16 ==> ed.orig[x] == mem[..24][x] == SampleImage()[..24][x];
    assert ed.orig[8..16] == SampleImage()[8..16] && ed.orig[..8] == SampleImage()[..8];
    SectionAtSame(SampleImage(), ed.orig, 8, 8, ed.sec);
    hide SectionAt;
  }

  lemma SectionAtSame(a: seq<byte>, b: seq<byte>, from: nat, len: nat, sec: Section)
    requires SectionAt(a, from, len, sec) && from + len <= |b| && b[from..from + len] == a[from..from + len]
    ensures SectionAt(b, from, len, sec)
  {
  }
}
