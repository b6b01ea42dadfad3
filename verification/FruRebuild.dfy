// The resizing editor, part three: ipmi_fru_set_field_string_rebuild over the two image
// buffers, and what the new image means.
module FruRebuild {
  import opened Bytes
  import opened HexText
  import opened FruField
  import opened FruLayout
  import opened FruMove
  import opened FruRelocate

  // How many bytes behind the old image the copy of the remaining section may read.
  const OVERREAD := 6

  // ---- what one edit asks for ----

  // orig is the old image, of which the device has the first `size` bytes; whatever is
  // behind them is not part of the FRU. The field is `f` of area `e`, the section `sec`.
  datatype Edit = Edit(orig: seq<byte>, size: nat, h: seq<byte>, e: nat, sec: Section, f: nat, s: seq<byte>)

  ghost function Ho(ed: Edit): nat
    requires |ed.h| == 8 && ed.e < 5
  {
    Start(ed.h, ed.e)
  }

  ghost function OldLength(ed: Edit): nat
    requires ed.f < |ed.sec.fields|
  {
    |ed.sec.fields[ed.f].payload|
  }

  ghost function Change(ed: Edit): int
    requires ed.f < |ed.sec.fields|
  {
    |ed.s| - OldLength(ed)
  }

  ghost function Cnt(ed: Edit): int
    requires ed.f < |ed.sec.fields|
  {
    ChangeBlocks(ed.sec.pad - Change(ed))
  }

  ghost function NewPad(ed: Edit): nat
    requires ed.f < |ed.sec.fields|
  {
    ResizeArithmetic(ed.sec.pad - Change(ed));
    ed.sec.pad - Change(ed) + 8 * Cnt(ed)
  }

  ghost function SectionLength(ed: Edit): nat
    requires |ed.h| == 8 && ed.e < 5 && Ho(ed) + 1 < |ed.orig|
  {
    Length(ed.orig, ed.h, ed.e)
  }

  // A well-formed FRU image and a field the editor can replace, whatever other areas there
  // are. With a resize the shifted offsets must still fit a byte, and what the code moves
  // of an internal use or a multirecord area must be readable and fit the new buffer.
  ghost predicate EditOk(ed: Edit) {
    && |ed.h| == 8 && Info(ed.e) && Present(ed.h, ed.e)
    && 8 <= ed.size && ed.size + OVERREAD <= |ed.orig| && ed.orig[..8] == ed.h
    && AreaInside(ed.orig, ed.h, ed.size, ed.e)
    && SectionOk(ed.sec) && SectionAt(ed.orig, Ho(ed), SectionLength(ed), ed.sec) && 3 <= |ed.sec.prefix|
    && ed.f < |ed.sec.fields| && Storable(ed.s)
    && (ed.sec.fields[ed.f].payload != [] ==> ed.sec.fields[ed.f].typecode == 3 && 0 !in ed.sec.fields[ed.f].payload)
    && (Cnt(ed) != 0 ==> ResizeOk(ed))
  }

  lemma Basics(ed: Edit)
    requires EditOk(ed)
    ensures |ed.h| == 8 && Info(ed.e) && Present(ed.h, ed.e) && ed.f < |ed.sec.fields|
    ensures 8 <= ed.size < |ed.orig| && Ho(ed) + 1 < |ed.orig| && AreaInside(ed.orig, ed.h, ed.size, ed.e)
  {
  }

  ghost predicate ResizeOk(ed: Edit)
    requires |ed.h| == 8 && ed.e < 5 && ed.f < |ed.sec.fields|
  {
    && AreasOk(ed.orig, ed.h, ed.size)
    && (forall i :: 0 <= i < 5 && Moves(ed.h, Ho(ed), i) ==> Blk(ed.h, i) + Cnt(ed) < 0x100)
    && (Moves(ed.h, Ho(ed), MULTI) ==> MultiFits(ed.orig, ed.size, Room(ed), ed.h, Cnt(ed)))
    && (Moves(ed.h, Ho(ed), INTERNAL) ==> InternalFits(ed.orig, ed.size, Room(ed), ed.h, Ho(ed), Cnt(ed)))
  }

  ghost function Room(ed: Edit): nat
    requires ed.f < |ed.sec.fields|
  {
    if ed.size + Change(ed) >= 0 then NewBufferSize(ed.size, Change(ed)) else ed.size
  }

  lemma NeedsResizeIffCnt(padding: int)
    ensures NeedsResize(padding) <==> ChangeBlocks(padding) != 0
  {
    ResizeArithmetic(padding);
  }

  // The new buffer has room for the section, for every shifted area, and the resized
  // section still has its header, so the relocation's conditions hold.
  lemma EditIsShiftable(ed: Edit)
    requires EditOk(ed)
    ensures ed.size <= Room(ed)
    ensures SectionLength(ed) + 8 * Cnt(ed) == SectionLength(ed) - ed.sec.pad - OldLength(ed) + |ed.s| + NewPad(ed)
    ensures Ho(ed) + SectionLength(ed) + 8 * Cnt(ed) <= Room(ed)
    ensures |Before(ed.sec, ed.f)| + |ed.s| + 3 + NewPad(ed) <= SectionLength(ed) + 8 * Cnt(ed)
    ensures Cnt(ed) != 0 ==> Shiftable(ed.orig, ed.size, Room(ed), ed.h, ed.e, Cnt(ed))
  {
    PiecesInImage(ed.orig, Ho(ed), SectionLength(ed), ed.sec, ed.f);
    ResizeArithmetic(ed.sec.pad - Change(ed));
    assert ed.size + Change(ed) >= 0;
    EndsFit(ed, ed.e);
    if Cnt(ed) != 0 {
      forall i | 0 <= i < 5 && Info(i) && Present(ed.h, i) && Start(ed.h, i) >= Ho(ed)
        ensures Start(ed.h, i) + Length(ed.orig, ed.h, i) + 8 * Cnt(ed) <= Room(ed)
      {
        assert AreaInside(ed.orig, ed.h, ed.size, i);
        EndsFit(ed, i);
      }
    }
  }

  lemma EndsFit(ed: Edit, i: nat)
    requires |ed.h| == 8 && i < 5 && AreaInside(ed.orig, ed.h, ed.size, i) && ed.f < |ed.sec.fields|
    requires ed.size + Change(ed) >= 0
    ensures ed.size <= Room(ed) && Start(ed.h, i) + Length(ed.orig, ed.h, i) + 8 * Cnt(ed) <= Room(ed)
  {
    NewBufferFits(ed.size, ed.sec.pad, Change(ed), Blk(ed.h, i) + ed.orig[Start(ed.h, i) + 1] as int);
  }

  // A chassis area of one block with the field "A", and a product area behind it.
  function SampleImage(): seq<byte> {
    [1, 0, 1, 0, 2, 0, 0, 252]
    + [1, 1, 0x17, 0xc1, 65, FRU_END_OF_FIELDS, 0, 36]
    + [1, 1, 0, FRU_END_OF_FIELDS, 0, 0, 0, 61]
    + Zeros(OVERREAD)
  }

  function SampleEdit(): Edit {
    Edit(SampleImage(), 24, [1, 0, 1, 0, 2, 0, 0, 252], 1, Section([1, 1, 0x17], [TextField([65])], 1), 0, [65, 66, 67, 68])
  }

  // The conditions on an edit can be met, also by one that has to move an area: "ABCD"
  // for "A" takes a second block.
  lemma SomeEditMoves()
    ensures var ed := SampleEdit(); EditOk(ed) && Cnt(ed) == 1 && Moves(ed.h, Ho(ed), 3)
  {
    var ed := SampleEdit();
    SampleSection();
    SampleAreas();
    hide SectionAt, AreasOk, SampleImage;
  }

  lemma SampleAreas()
    ensures var ed := SampleEdit();
      AreasOk(ed.orig, ed.h, 24) && AreaInside(ed.orig, ed.h, 24, 1) && ed.orig[..8] == ed.h && |ed.orig| == 30 && ed.orig[9] == 1
  {
    SampleBytes();
    hide SampleImage;
    var ed := SampleEdit();
    assert Present(ed.h, 1) && !Present(ed.h, 2) && Present(ed.h, 3);
    assert AreaInside(ed.orig, ed.h, 24, 1) && AreaInside(ed.orig, ed.h, 24, 3);
    assert Apart(ed.orig, ed.h, 1, 3) && Apart(ed.orig, ed.h, 3, 1);
  }

  lemma SampleBytes()
    ensures var img := SampleImage();
      |img| == 30 && img[..8] == SampleEdit().h && img[9] == 1 && img[17] == 1
  {
  }

  lemma SampleSection()
    ensures SectionAt(SampleImage(), 8, 8, SampleEdit().sec)
  {
    var sec, body := SampleEdit().sec, [1, 1, 0x17, 0xc1, 65, FRU_END_OF_FIELDS, 0];
    assert sec.fields[1..] == [] && EncodeFields([]) == [];
    assert EncodeField(sec.fields[0]) == [0xc1, 65];
    assert EncodeFields(sec.fields) == [0xc1, 65];
    assert Body(sec) == body;
    SampleSum(body);
    assert SampleImage()[8..16] == body + [36];
  }

  lemma SampleSum(body: seq<byte>)
    requires body == [1, 1, 0x17, 0xc1, 65, FRU_END_OF_FIELDS, 0]
    ensures Complement(body) == 36
  {
    hide Sum;
    SumOfSeven(body);
  }

  lemma SumFrom(s: seq<byte>, i: nat)
    requires i < |s|
    ensures Sum(s[i..]) == s[i] + Sum(s[i + 1..])
  {
    assert s[i..][1..] == s[i + 1..];
  }

  lemma SumNothing()
    ensures Sum([]) == 0
  {
  }

  // ---- the new image ----

  ghost function MovedImage(ed: Edit, img0: seq<byte>): (r: Moved)
    requires EditOk(ed) && |img0| == Room(ed)
    ensures |r.img| == |img0|
  {
    EditIsShiftable(ed);
    if Cnt(ed) == 0 then Moved(img0, ed.h, 0, 0)
    else
      ShiftableCanRelocate(ed.orig, img0, ed.size, ed.h, ed.e, Cnt(ed));
      Relocate(ed.orig, img0, ed.h, ed.size, Ho(ed), Cnt(ed))
  }

  // Where the field's length byte is.
  ghost function FieldOffset(ed: Edit): nat
    requires |ed.h| == 8 && ed.e < 5 && SectionOk(ed.sec) && ed.f < |ed.sec.fields|
  {
    Ho(ed) + |Before(ed.sec, ed.f)|
  }

  ghost predicate CanRewrite(ed: Edit, img: seq<byte>)
    requires EditOk(ed)
  {
    var len, fo := SectionLength(ed) + 8 * Cnt(ed), FieldOffset(ed);
    && 0 <= len && fo + |ed.s| + 2 + NewPad(ed) <= Ho(ed) + len <= |img|
    && fo + 1 + OldLength(ed) + (Ho(ed) + len - 1 - (fo + |ed.s| + 1)) <= |ed.orig|
  }

  lemma EditCanRewrite(ed: Edit, img: seq<byte>)
    requires EditOk(ed) && |img| == Room(ed)
    ensures CanRewrite(ed, img)
  {
    EditIsShiftable(ed);
    PiecesInImage(ed.orig, Ho(ed), SectionLength(ed), ed.sec, ed.f);
  }

  // The image the editor writes back, from the uninitialised new buffer's point of view:
  // img0 is that buffer after the old image was copied to its front.
  ghost function NewImage(ed: Edit, img0: seq<byte>): (r: seq<byte>)
    requires EditOk(ed) && |img0| == Room(ed)
    ensures |r| == |img0|
  {
    var m := MovedImage(ed, img0);
    EditCanRewrite(ed, m.img);
    RewriteField(m.img, ed.orig, Ho(ed), FieldOffset(ed), OldLength(ed), ed.s, SectionLength(ed) + 8 * Cnt(ed), NewPad(ed))
  }

  ghost function NewHeader(ed: Edit, img0: seq<byte>): seq<byte>
    requires EditOk(ed) && |img0| == Room(ed)
  {
    MovedImage(ed, img0).h
  }

  // ---- reading behind the buffers ----

  // The size of the FRU after the edit, which is what is written back.
  ghost function NewSize(ed: Edit): int
    requires ed.f < |ed.sec.fields|
  {
    ed.size + 8 * Cnt(ed)
  }

  // Whether the new buffer covers the new size: the section does not grow, or the FRU
  // ends on a block boundary, or the alignment of the buffer happens to make up for it.
  ghost predicate FitsBuffer(ed: Edit)
    requires ed.f < |ed.sec.fields|
  {
    Cnt(ed) <= 0 || ed.size % 8 == 0 || NewPad(ed) < ed.size % 8 + ed.sec.pad
  }

  // The write-back stays inside the new buffer exactly then; otherwise it reads up to
  // seven bytes behind it.
  lemma WriteBackFitsIff(ed: Edit)
    requires EditOk(ed)
    ensures 0 <= NewSize(ed) <= Room(ed) + 7
    ensures NewSize(ed) <= Room(ed) <==> FitsBuffer(ed)
  {
    hide SectionAt, Storable, AreasOk;
    EditIsShiftable(ed);
    assert AreaInside(ed.orig, ed.h, ed.size, ed.e);
    RoomOfSize(ed.size, ed.sec.pad, Change(ed), Cnt(ed), NewPad(ed));
  }

  lemma RoomOfSize(size: nat, pad: nat, change: int, cnt: int, newPad: nat)
    requires size + change >= 0 && newPad < 8 && newPad == pad - change + 8 * cnt
    ensures size + 8 * cnt <= NewBufferSize(size, change) + 7
    ensures size + 8 * cnt <= NewBufferSize(size, change) <==> cnt <= 0 || size % 8 == 0 || newPad < size % 8 + pad
  {
    var q, r := size / 8, size % 8;
    if cnt > 0 {
      assert change > 0;
      assert size + change == 8 * (q + cnt) + (r + pad - newPad);
      assert NewBufferSize(size, change) == 8 * (q + cnt) + (r + pad - newPad + 7) / 8 * 8;
    } else if change <= 0 {
      assert NewBufferSize(size, change) == size;
    } else {
      assert size <= NewBufferSize(size, change);
    }
  }

  // Where the copy of the rest of the section stops reading the old image.
  ghost function CopyEnd(ed: Edit): int
    requires EditOk(ed)
  {
    var len, fo := SectionLength(ed) + 8 * Cnt(ed), FieldOffset(ed);
    fo + 1 + OldLength(ed) + (Ho(ed) + len - 1 - (fo + |ed.s| + 1))
  }

  // The copy stays inside the old image exactly when the section's new padding fits
  // behind its old content; otherwise it reads up to six bytes behind the image.
  lemma CopyStaysInsideIff(ed: Edit)
    requires EditOk(ed)
    ensures CopyEnd(ed) <= ed.size + OVERREAD
    ensures CopyEnd(ed) <= ed.size <==> Ho(ed) + SectionLength(ed) + NewPad(ed) <= ed.size + ed.sec.pad + 1
  {
    EditIsShiftable(ed);
  }

  // What stands there is overwritten by the padding and the checksum: the rewritten
  // image depends on the old FRU only.
  lemma SlackIsOverwritten(ed: Edit, img: seq<byte>, b: seq<byte>)
    requires EditOk(ed) && |img| == Room(ed) && |b| == |ed.orig| && b[..ed.size] == ed.orig[..ed.size]
    ensures CanRewrite(ed, img)
    ensures RewriteField(img, ed.orig, Ho(ed), FieldOffset(ed), OldLength(ed), ed.s, SectionLength(ed) + 8 * Cnt(ed), NewPad(ed))
         == RewriteField(img, b, Ho(ed), FieldOffset(ed), OldLength(ed), ed.s, SectionLength(ed) + 8 * Cnt(ed), NewPad(ed))
  {
    hide ResizeOk, SectionAt, RewriteField, AreasOk, Before;
    EditCanRewrite(ed, img);
    RestEndsInside(ed);
    var fo, oldLen, len := FieldOffset(ed), OldLength(ed), SectionLength(ed) + 8 * Cnt(ed);
    var n := Ho(ed) + len - 1 - (fo + |ed.s| + 1);
    SameRest(ed.orig, b, ed.size, fo + 1 + oldLen, n - NewPad(ed));
    RewriteIgnoresPadding(img, ed.orig, b, Ho(ed), fo, oldLen, ed.s, len, NewPad(ed), n);
  }

  lemma RestEndsInside(ed: Edit)
    requires EditOk(ed)
    ensures FieldOffset(ed) + 1 + OldLength(ed) <= CopyEnd(ed) - NewPad(ed) <= ed.size
  {
    EditIsShiftable(ed);
  }

  lemma SameRest(a: seq<byte>, b: seq<byte>, size: nat, from: nat, n: nat)
    requires |a| == |b| && size <= |a| && a[..size] == b[..size] && from + n <= size
    ensures a[from..from + n] == b[from..from + n]
  {
    assert a[from..from + n] == a[..size][from..from + n];
    assert b[from..from + n] == b[..size][from..from + n];
  }

  lemma RewriteIgnoresPadding(img: seq<byte>, a: seq<byte>, b: seq<byte>, ho: nat, fo: nat, oldLen: nat, s: seq<byte>, len: nat, pad: nat, n: nat)
    requires |s| < 64 && |a| == |b|
    requires ho <= fo && fo + |s| + 2 + pad <= ho + len <= |img| && n == ho + len - 1 - (fo + |s| + 1)
    requires fo + 1 + oldLen + n <= |a|
    requires a[fo + 1 + oldLen..fo + 1 + oldLen + (n - pad)] == b[fo + 1 + oldLen..fo + 1 + oldLen + (n - pad)]
    ensures RewriteField(img, a, ho, fo, oldLen, s, len, pad) == RewriteField(img, b, ho, fo, oldLen, s, len, pad)
  {
    hide Splice, Zeros, Complement;
    var from := fo + 1 + oldLen;
    var n1 := Splice(Splice(img, fo, [0xc0 + |s|]), fo + 1, s);
    assert a[from..from + n][..n - pad] == a[from..from + (n - pad)];
    assert b[from..from + n][..n - pad] == b[from..from + (n - pad)];
    PaddedSame(n1, fo + 1 + |s|, a[from..from + n], b[from..from + n], pad);
  }

  lemma PaddedSame(n1: seq<byte>, at: nat, a: seq<byte>, b: seq<byte>, pad: nat)
    requires |a| == |b| && at + |a| <= |n1| && pad <= |a| && a[..|a| - pad] == b[..|a| - pad]
    ensures Splice(Splice(n1, at, a), at + |a| - pad, Zeros(pad)) == Splice(Splice(n1, at, b), at + |a| - pad, Zeros(pad))
  {
    hide Splice, Zeros;
    assert forall i :: 0 <= i < |a| - pad ==> a[i] == a[..|a| - pad][i] == b[i];
  }

  // ---- edits that do read behind ----

  // The sample edit on a FRU of 25 bytes: 33 bytes are written back from a buffer of 32.
  lemma OddSizeOverruns()
    ensures var ed := SampleEdit().(size := 25, orig := SampleImage() + [0]);
      EditOk(ed) && NewSize(ed) == 33 && Room(ed) == 32
  {
    SampleSection();
    SampleBytes();
    hide SampleImage, EncodeSection;
    var a, ed := SampleEdit(), SampleEdit().(size := 25, orig := SampleImage() + [0]);
    assert ed.orig[..8] == a.orig[..8] && ed.orig[8..16] == a.orig[8..16];
    assert ed.orig[9] == 1 && ed.orig[17] == 1;
    assert Present(ed.h, 1) && !Present(ed.h, 2) && Present(ed.h, 3);
    assert AreaInside(ed.orig, ed.h, 25, 1) && AreaInside(ed.orig, ed.h, 25, 3);
    assert Apart(ed.orig, ed.h, 1, 3) && Apart(ed.orig, ed.h, 3, 1);
  }

  // "ABC" for "AB" in a section without padding that ends the FRU: the copy reads all six
  // bytes behind it.
  function FullEdit(): Edit {
    Edit([1, 0, 1, 0, 0, 0, 0, 254] + [1, 1, 0x17, 0xc2, 65, 66, FRU_END_OF_FIELDS, 225] + Zeros(OVERREAD), 16,
         [1, 0, 1, 0, 0, 0, 0, 254], 1, Section([1, 1, 0x17], [TextField([65, 66])], 0), 0, [65, 66, 67])
  }

  lemma FullEditOverreads()
    ensures var ed := FullEdit(); EditOk(ed) && CopyEnd(ed) == ed.size + OVERREAD
  {
    FullBytes();
    FullSection();
    hide SectionAt, FullEdit;
    assert AreasOk(FullEdit().orig, FullEdit().h, 16);
    CopyStaysInsideIff(FullEdit());
    FullOffset();
  }

  lemma FullBytes()
    ensures var ed := FullEdit();
      && ed == Edit(ed.orig, 16, [1, 0, 1, 0, 0, 0, 0, 254], 1, Section([1, 1, 0x17], [TextField([65, 66])], 0), 0, [65, 66, 67])
      && |ed.orig| == 22 && ed.orig[..8] == ed.h && ed.orig[9] == 1
  {
  }

  lemma FullOffset()
    ensures |FullEdit().sec.fields[0].payload| == 2 && |Before(FullEdit().sec, 0)| == 3
  {
    assert FullEdit().sec.fields[..0] == [];
  }

  lemma FullSection()
    ensures SectionAt(FullEdit().orig, 8, 8, FullEdit().sec)
  {
    var sec, body := FullEdit().sec, [1, 1, 0x17, 0xc2, 65, 66, FRU_END_OF_FIELDS];
    assert sec.fields[1..] == [] && EncodeFields([]) == [];
    assert EncodeField(sec.fields[0]) == [0xc2, 65, 66];
    assert EncodeFields(sec.fields) == [0xc2, 65, 66];
    assert Body(sec) == body;
    FullSum(body);
    assert FullEdit().orig[8..16] == body + [225];
  }

  lemma FullSum(body: seq<byte>)
    requires body == [1, 1, 0x17, 0xc2, 65, 66, FRU_END_OF_FIELDS]
    ensures Complement(body) == 225
  {
    hide Sum;
    SumOfSeven(body);
  }

  lemma SumOfSeven(s: seq<byte>)
    requires |s| == 7
    ensures Sum(s) == s[0] as int + s[1] as int + s[2] as int + s[3] as int + s[4] as int + s[5] as int + s[6] as int
  {
    hide Sum;
    SumFrom(s, 0);
    SumFrom(s, 1);
    SumFrom(s, 2);
    SumFrom(s, 3);
    SumFrom(s, 4);
    SumFrom(s, 5);
    SumFrom(s, 6);
    assert s[0..] == s && s[7..] == [];
    SumNothing();
  }

  // ---- what the new image means ----

  // The edited section, read at its old place with its new length, is the old section
  // with just the one field replaced; its length byte in the image is the old one.
  ghost predicate SectionReplaced(ed: Edit, img: seq<byte>)
    requires EditOk(ed)
  {
    && 0 <= SectionLength(ed) + 8 * Cnt(ed)
    && SectionAt(img, Ho(ed), SectionLength(ed) + 8 * Cnt(ed), Replaced(ed.sec, ed.f, ed.s, NewPad(ed)))
    && img[Ho(ed) + 1] == ed.orig[Ho(ed) + 1]
  }

  // Every other info area stands at its new header offset, and all bytes before the
  // section but the header are as before, whatever areas they belong to. Without a
  // resize, all bytes outside the section are as before.
  ghost predicate OthersKept(ed: Edit, img: seq<byte>, h: seq<byte>)
    requires EditOk(ed) && |img| >= ed.size
  {
    if Cnt(ed) == 0 then
      && h == ed.h
      && forall x :: 0 <= x < ed.size && !(Ho(ed) <= x < Ho(ed) + SectionLength(ed)) ==> img[x] == ed.orig[x]
    else
      && |h| == 8 && ZeroSum(h) && img[..8] == h
      && (forall i :: 0 <= i < 5 ==> Blk(h, i) as int == NewBlk(ed.h, Ho(ed), Cnt(ed), i))
      && img[8..Ho(ed)] == ed.orig[8..Ho(ed)]
      && (forall i :: 0 <= i < 5 && Info(i) && i != ed.e && Present(ed.h, i) ==>
            AreaInside(ed.orig, ed.h, ed.size, i) && Stands(ed.orig, img, ed.h, Ho(ed), Cnt(ed), i))
  }

  // A shrunken FRU: the bytes the last area gave up are zero.
  ghost predicate TailErased(ed: Edit, img: seq<byte>, end: nat)
    requires EditOk(ed)
  {
    Cnt(ed) < 0 ==> 0 <= end + 8 * Cnt(ed) <= end <= |img| && img[end + 8 * Cnt(ed)..end] == Zeros(-8 * Cnt(ed))
  }

  lemma SectionIsReplaced(ed: Edit, img0: seq<byte>)
    requires EditOk(ed) && |img0| == Room(ed) && ed.size <= |img0| && img0[..ed.size] == ed.orig[..ed.size]
    ensures SectionReplaced(ed, NewImage(ed, img0))
  {
    hide NewImage, SectionAt;
    SectionHolds(ed, img0);
    LengthByteIsKept(ed, img0);
  }

  lemma SectionHolds(ed: Edit, img0: seq<byte>)
    requires EditOk(ed) && |img0| == Room(ed) && ed.size <= |img0| && img0[..ed.size] == ed.orig[..ed.size]
    ensures var len := SectionLength(ed) + 8 * Cnt(ed);
      0 <= len && SectionAt(NewImage(ed, img0), Ho(ed), len, Replaced(ed.sec, ed.f, ed.s, NewPad(ed)))
  {
    hide ResizeOk, MovedImage, RewriteField, SectionAt, Before, Shiftable, ZeroSum, CanRewrite;
    var m := MovedImage(ed, img0);
    PiecesInImage(ed.orig, Ho(ed), SectionLength(ed), ed.sec, ed.f);
    MovedFront(ed, img0);
    EditCanRewrite(ed, m.img);
    SectionRewritten(ed, m.img);
  }

  lemma SectionRewritten(ed: Edit, img: seq<byte>)
    requires EditOk(ed) && |img| == Room(ed) && CanRewrite(ed, img)
    requires img[Ho(ed)..FieldOffset(ed)] == Before(ed.sec, ed.f)
    ensures var len := SectionLength(ed) + 8 * Cnt(ed);
      SectionAt(RewriteField(img, ed.orig, Ho(ed), FieldOffset(ed), OldLength(ed), ed.s, len, NewPad(ed)), Ho(ed), len,
                Replaced(ed.sec, ed.f, ed.s, NewPad(ed)))
  {
    hide ResizeOk, RewriteField, SectionAt, Before, Shiftable, ZeroSum;
    EditIsShiftable(ed);
    RewriteSection(img, ed.orig, Ho(ed), SectionLength(ed), ed.sec, ed.f, ed.s, NewPad(ed),
                   FieldOffset(ed), OldLength(ed), SectionLength(ed) + 8 * Cnt(ed));
  }

  lemma LengthByteIsKept(ed: Edit, img0: seq<byte>)
    requires EditOk(ed) && |img0| == Room(ed) && ed.size <= |img0| && img0[..ed.size] == ed.orig[..ed.size]
    ensures Ho(ed) + 1 < |img0| && Ho(ed) + 1 < |ed.orig|
    ensures NewImage(ed, img0)[Ho(ed) + 1] == ed.orig[Ho(ed) + 1]
  {
    hide ResizeOk, MovedImage, RewriteField, SectionAt, Before, Shiftable, ZeroSum;
    var len, ho, fo, m := SectionLength(ed) + 8 * Cnt(ed), Ho(ed), FieldOffset(ed), MovedImage(ed, img0);
    MovedFront(ed, img0);
    EditCanRewrite(ed, m.img);
    PrefixIsFront(ed);
    RewriteFrame(m.img, ed.orig, ho, fo, OldLength(ed), ed.s, len, NewPad(ed), ho + 1);
    assert m.img[ho..fo][1] == ed.orig[ho..fo][1];
  }

  lemma PrefixIsFront(ed: Edit)
    requires EditOk(ed)
    ensures Ho(ed) + 3 <= FieldOffset(ed)
  {
  }

  // Before the rewrite, the front part of the section is still the old one.
  lemma MovedFront(ed: Edit, img0: seq<byte>)
    requires EditOk(ed) && |img0| == Room(ed) && ed.size <= |img0| && img0[..ed.size] == ed.orig[..ed.size]
    ensures Ho(ed) <= FieldOffset(ed) <= |img0| && FieldOffset(ed) <= |ed.orig|
    ensures MovedImage(ed, img0).img[Ho(ed)..FieldOffset(ed)] == ed.orig[Ho(ed)..FieldOffset(ed)]
  {
    EditIsShiftable(ed);
    var ho, fo, m := Ho(ed), FieldOffset(ed), MovedImage(ed, img0);
    PiecesInImage(ed.orig, ho, SectionLength(ed), ed.sec, ed.f);
    if Cnt(ed) != 0 {
      RelocatedFront(ed, img0, fo);
    } else {
      SameMiddle(m.img, img0, ed.orig, ed.size, 8, fo, ho, fo);
    }
  }

  lemma RelocatedFront(ed: Edit, img0: seq<byte>, fo: nat)
    requires EditOk(ed) && |img0| == Room(ed) && ed.size <= |img0| && img0[..ed.size] == ed.orig[..ed.size] && Cnt(ed) != 0
    requires Ho(ed) <= fo <= ed.size && fo <= Ho(ed) + SectionLength(ed) + 8 * Cnt(ed)
    ensures MovedImage(ed, img0).img[Ho(ed)..fo] == ed.orig[Ho(ed)..fo]
  {
    hide ResizeOk, MovedImage, Relocate, SectionAt, Storable;
    EditIsShiftable(ed);
    RelocatedIs(ed, img0);
    RelocateOk(ed.orig, img0, ed.size, ed.h, ed.e, Cnt(ed));
    var m, limit := MovedImage(ed, img0), Ho(ed) + SectionLength(ed) + 8 * Cnt(ed);
    assert m.img[8..limit] == img0[8..limit];
    SameMiddle(m.img, img0, ed.orig, ed.size, 8, limit, Ho(ed), fo);
  }

  lemma SameMiddle(a: seq<byte>, b: seq<byte>, c: seq<byte>, size: nat, from: nat, to: nat, lo: nat, hi: nat)
    requires from <= lo <= hi <= to <= |a| == |b| && hi <= size <= |b| && size <= |c|
    requires a[from..to] == b[from..to] && b[..size] == c[..size]
    ensures a[lo..hi] == c[lo..hi]
  {
    assert forall x :: lo <= x < hi ==> a[x] == a[from..to][x - from] == b[from..to][x - from] == b[..size][x] == c[..size][x];
  }

  // The rewrite leaves everything outside the section as the relocation made it.
  lemma OutsideSection(ed: Edit, img0: seq<byte>, x: nat)
    requires EditOk(ed) && |img0| == Room(ed) && x < |img0|
    requires !(Ho(ed) <= x < Ho(ed) + SectionLength(ed) + 8 * Cnt(ed))
    ensures NewImage(ed, img0)[x] == MovedImage(ed, img0).img[x]
  {
    hide ResizeOk, MovedImage, RewriteField, SectionAt, AreasOk, Before;
    var m := MovedImage(ed, img0);
    EditCanRewrite(ed, m.img);
    PiecesInImage(ed.orig, Ho(ed), SectionLength(ed), ed.sec, ed.f);
    RewriteFrame(m.img, ed.orig, Ho(ed), FieldOffset(ed), OldLength(ed), ed.s, SectionLength(ed) + 8 * Cnt(ed), NewPad(ed), x);
  }

  lemma OthersAreKept(ed: Edit, img0: seq<byte>)
    requires EditOk(ed) && |img0| == Room(ed) && ed.size <= |img0| && img0[..ed.size] == ed.orig[..ed.size]
    ensures OthersKept(ed, NewImage(ed, img0), NewHeader(ed, img0))
    ensures TailErased(ed, NewImage(ed, img0), MovedImage(ed, img0).end)
  {
    hide NewImage;
    if Cnt(ed) == 0 {
      forall x | 0 <= x < ed.size && !(Ho(ed) <= x < Ho(ed) + SectionLength(ed)) ensures NewImage(ed, img0)[x] == ed.orig[x] {
        OutsideSection(ed, img0, x);
        assert img0[..ed.size][x] == ed.orig[..ed.size][x];
      }
    } else {
      OthersAreMoved(ed, img0);
    }
  }

  lemma OthersAreMoved(ed: Edit, img0: seq<byte>)
    requires EditOk(ed) && |img0| == Room(ed) && ed.size <= |img0| && img0[..ed.size] == ed.orig[..ed.size] && Cnt(ed) != 0
    ensures OthersKept(ed, NewImage(ed, img0), NewHeader(ed, img0))
    ensures TailErased(ed, NewImage(ed, img0), MovedImage(ed, img0).end)
  {
    hide ResizeOk, NewImage, MovedImage, Relocate, Relocated, SectionAt, Storable, Stands, AreasOk, OthersKept, TailErased;
    EditIsShiftable(ed);
    RelocatedIs(ed, img0);
    RelocateOk(ed.orig, img0, ed.size, ed.h, ed.e, Cnt(ed));
    forall x | 0 <= x < |img0| && !InSection(ed, x) ensures NewImage(ed, img0)[x] == MovedImage(ed, img0).img[x] {
      OutsideSection(ed, img0, x);
    }
    OthersAfterRewrite(ed, img0, MovedImage(ed, img0), NewImage(ed, img0));
  }

  predicate InRange(x: nat, from: nat, len: int) {
    from <= x < from + len
  }

  ghost predicate InSection(ed: Edit, x: nat)
    requires EditOk(ed)
  {
    InRange(x, Ho(ed), SectionLength(ed) + 8 * Cnt(ed))
  }

  // What the relocation achieved is still there after the section was rewritten.
  lemma OthersAfterRewrite(ed: Edit, img0: seq<byte>, m: Moved, n: seq<byte>)
    requires EditOk(ed) && |img0| == Room(ed) && ed.size <= |img0| && img0[..ed.size] == ed.orig[..ed.size] && Cnt(ed) != 0
    requires Relocated(ed.orig, img0, ed.size, ed.h, ed.e, Cnt(ed), m) && |n| == |m.img|
    requires forall x :: 0 <= x < |n| && !InSection(ed, x) ==> n[x] == m.img[x]
    ensures OthersKept(ed, n, m.h) && TailErased(ed, n, m.end)
  {
    hide EditOk, Stands, Shiftable, InSection, TailErased, AreasOk, ZeroSum;
    Basics(ed);
    EditIsShiftable(ed);
    FrontAfterRewrite(ed, img0, m.img, n);
    InfosAfterRewrite(ed, m.img, n);
    RelocatedTail(ed, img0, m);
    TailAfterRewrite(ed, m.img, n, m.end);
  }

  lemma FrontAfterRewrite(ed: Edit, img0: seq<byte>, a: seq<byte>, b: seq<byte>)
    requires EditOk(ed) && |img0| == |a| == |b| && ed.size <= |img0| && img0[..ed.size] == ed.orig[..ed.size]
    requires var limit := Ho(ed) + SectionLength(ed) + 8 * Cnt(ed); 8 <= Ho(ed) <= limit <= |a| && a[8..limit] == img0[8..limit]
    requires forall x :: 0 <= x < |b| && !InSection(ed, x) ==> b[x] == a[x]
    ensures b[..8] == a[..8] && Ho(ed) <= |ed.orig| && b[8..Ho(ed)] == ed.orig[8..Ho(ed)]
  {
    hide SectionAt, Storable, ResizeOk;
    SameOutside(a, b, Ho(ed), SectionLength(ed) + 8 * Cnt(ed), 0, 8);
    FrontKept(ed, img0, a, b);
  }

  lemma TailAfterRewrite(ed: Edit, a: seq<byte>, b: seq<byte>, end: nat)
    requires EditOk(ed) && |a| == |b| && TailErased(ed, a, end)
    requires Cnt(ed) < 0 ==> 0 <= Ho(ed) + SectionLength(ed) + 8 * Cnt(ed) <= end + 8 * Cnt(ed)
    requires forall x :: 0 <= x < |b| && !InSection(ed, x) ==> b[x] == a[x]
    ensures TailErased(ed, b, end)
  {
    hide SectionAt, Storable, ResizeOk;
    if Cnt(ed) < 0 {
      SameOutside(a, b, Ho(ed), SectionLength(ed) + 8 * Cnt(ed), end + 8 * Cnt(ed), end);
    }
  }

  lemma RelocatedTail(ed: Edit, img0: seq<byte>, m: Moved)
    requires EditOk(ed) && |img0| == Room(ed) && Cnt(ed) != 0 && AreasOk(ed.orig, ed.h, ed.size)
    requires Relocated(ed.orig, img0, ed.size, ed.h, ed.e, Cnt(ed), m)
    ensures TailErased(ed, m.img, m.end)
    ensures Cnt(ed) < 0 ==> 0 <= Ho(ed) + SectionLength(ed) + 8 * Cnt(ed) <= m.end + 8 * Cnt(ed)
  {
    hide EditOk, AreasOk, Stands;
    Basics(ed);
  }

  lemma InfosAfterRewrite(ed: Edit, a: seq<byte>, b: seq<byte>)
    requires EditOk(ed) && Cnt(ed) != 0 && |a| == |b|
    requires Shiftable(ed.orig, ed.size, Room(ed), ed.h, ed.e, Cnt(ed)) && 0 <= SectionLength(ed) + 8 * Cnt(ed)
    requires forall i :: 0 <= i < 5 && Info(i) && i != ed.e && Present(ed.h, i) ==>
      AreaInside(ed.orig, ed.h, ed.size, i) && Stands(ed.orig, a, ed.h, Ho(ed), Cnt(ed), i)
    requires forall x :: 0 <= x < |b| && !InSection(ed, x) ==> b[x] == a[x]
    ensures forall i :: 0 <= i < 5 && Info(i) && i != ed.e && Present(ed.h, i) ==>
      AreaInside(ed.orig, ed.h, ed.size, i) && Stands(ed.orig, b, ed.h, Ho(ed), Cnt(ed), i)
  {
    hide Stands, Shiftable, SectionAt, Storable, ResizeOk;
    forall i | 0 <= i < 5 && Info(i) && i != ed.e && Present(ed.h, i)
      ensures AreaInside(ed.orig, ed.h, ed.size, i) && Stands(ed.orig, b, ed.h, Ho(ed), Cnt(ed), i)
    {
      NewAreasApart(ed.orig, ed.size, Room(ed), ed.h, ed.e, Cnt(ed), i, ed.e);
      StandsToo(ed, a, b, i, Ho(ed), SectionLength(ed) + 8 * Cnt(ed));
    }
  }

  lemma SameOutside(a: seq<byte>, b: seq<byte>, ho: nat, len: int, from: nat, to: nat)
    requires |a| == |b| && from <= to <= |a| && (to <= ho || ho + len <= from)
    requires forall x :: 0 <= x < |b| && !InRange(x, ho, len) ==> b[x] == a[x]
    ensures b[from..to] == a[from..to]
  {
  }

  lemma FrontKept(ed: Edit, img0: seq<byte>, a: seq<byte>, b: seq<byte>)
    requires EditOk(ed) && |img0| == |a| == |b| && Ho(ed) <= ed.size <= |img0| && img0[..ed.size] == ed.orig[..ed.size]
    requires 8 <= Ho(ed) <= Ho(ed) + SectionLength(ed) + 8 * Cnt(ed) <= |a|
    requires a[8..Ho(ed) + SectionLength(ed) + 8 * Cnt(ed)] == img0[8..Ho(ed) + SectionLength(ed) + 8 * Cnt(ed)]
    requires forall x :: 0 <= x < Ho(ed) ==> b[x] == a[x]
    ensures b[8..Ho(ed)] == ed.orig[8..Ho(ed)]
  {
    SameMiddle(a, img0, ed.orig, ed.size, 8, Ho(ed) + SectionLength(ed) + 8 * Cnt(ed), 8, Ho(ed));
  }

  lemma StandsToo(ed: Edit, a: seq<byte>, b: seq<byte>, i: nat, ho: nat, len: nat)
    requires |ed.h| == 8 && i < 5 && Start(ed.h, i) + 1 < |ed.orig| && |a| == |b| && ed.f < |ed.sec.fields|
    requires Stands(ed.orig, a, ed.h, ho, Cnt(ed), i)
    requires var to, l := 8 * NewBlk(ed.h, ho, Cnt(ed), i), Length(ed.orig, ed.h, i); to + l <= ho || ho + len <= to
    requires forall x :: 0 <= x < |b| && !InRange(x, ho, len) ==> b[x] == a[x]
    ensures Stands(ed.orig, b, ed.h, ho, Cnt(ed), i)
  {
    var to, l := 8 * NewBlk(ed.h, ho, Cnt(ed), i), Length(ed.orig, ed.h, i);
    assert b[to..to + l] == a[to..to + l];
  }

  lemma RelocatedIs(ed: Edit, img0: seq<byte>)
    requires EditOk(ed) && |img0| == Room(ed) && Cnt(ed) != 0
    ensures CanRelocate(ed.orig, img0, ed.h, ed.size, Ho(ed), Cnt(ed))
    ensures MovedImage(ed, img0) == Relocate(ed.orig, img0, ed.h, ed.size, Ho(ed), Cnt(ed))
  {
    hide CanRelocate, Relocate, Shiftable;
    EditIsShiftable(ed);
    ShiftableCanRelocate(ed.orig, img0, ed.size, ed.h, ed.e, Cnt(ed));
  }

  // Walking to field k and decoding it gives the new string for the edited field, and
  // what the old image gave for any other.
  ghost predicate DecodesAsEdited(ed: Edit, img: seq<byte>, k: nat)
    requires |ed.h| == 8 && ed.e < 5
  {
    DecodesFrom(ed, img, Ho(ed) + |ed.sec.prefix|, k)
  }

  ghost predicate DecodesFrom(ed: Edit, img: seq<byte>, from: nat, k: nat) {
    var was, now := Walk(ed.orig, from, k), Walk(img, from, k);
    && was.Some? && Fits(ed.orig, was.value) && now.Some? && Fits(img, now.value)
    && Decode(img, now.value) == if k == ed.f then Some(ed.s) else Decode(ed.orig, was.value)
  }

  // After the edit, field f decodes to the new string, every other field decodes as
  // before, and the bytes of the section in its new length sum to zero.
  lemma EditedFieldsDecode(ed: Edit, img: seq<byte>, k: nat)
    requires EditOk(ed) && SectionReplaced(ed, img) && k < |ed.sec.fields|
    ensures ZeroSum(img[Ho(ed)..Ho(ed) + SectionLength(ed) + 8 * Cnt(ed)])
    ensures DecodesAsEdited(ed, img, k)
  {
    hide Walk, Decode, Fits, Payload, SectionAt, ZeroSum;
    var sec', len' := Replaced(ed.sec, ed.f, ed.s, NewPad(ed)), SectionLength(ed) + 8 * Cnt(ed);
    SectionIsZeroSum(img, Ho(ed), len', sec');
    SectionDecodes(ed.orig, Ho(ed), SectionLength(ed), ed.sec, k);
    SectionDecodes(img, Ho(ed), len', sec', k);
    CStringOf(ed.s, ed.s);
  }

  // The edit in plain offsets: the section that starts at byte `at` of the old image, with
  // its first field at byte `first`, is in the new image the one with just field f
  // replaced, and all fields from there on decode as edited.
  ghost predicate EditedAt(ed: Edit, img: seq<byte>, at: nat, first: nat)
    requires EditOk(ed)
  {
    && first == at + |ed.sec.prefix| && at + 1 < |ed.orig|
    && SectionAt(ed.orig, at, 8 * ed.orig[at + 1] as int, ed.sec)
    && 0 <= 8 * ed.orig[at + 1] as int + 8 * Cnt(ed)
    && SectionAt(img, at, 8 * ed.orig[at + 1] as int + 8 * Cnt(ed), Replaced(ed.sec, ed.f, ed.s, NewPad(ed)))
    && forall k :: 0 <= k < |ed.sec.fields| ==> DecodesFrom(ed, img, first, k)
  }

  lemma ReplacedIsEditedAt(ed: Edit, img: seq<byte>)
    requires EditOk(ed) && SectionReplaced(ed, img)
    ensures EditedAt(ed, img, Ho(ed), Ho(ed) + |ed.sec.prefix|)
  {
    hide SectionAt, DecodesFrom, AreasOk, Storable;
    var first := Ho(ed) + |ed.sec.prefix|;
    forall k | 0 <= k < |ed.sec.fields| ensures DecodesFrom(ed, img, first, k) {
      EditedFieldsDecode(ed, img, k);
    }
  }

  // The length byte of the edited area is right exactly when no resize was needed: the
  // editor updates it in the old image only.
  lemma LengthByteIsStale(ed: Edit, img: seq<byte>)
    requires EditOk(ed) && SectionReplaced(ed, img)
    ensures 8 * img[Ho(ed) + 1] as int == SectionLength(ed) + 8 * Cnt(ed) <==> !NeedsResize(ed.sec.pad - Change(ed))
  {
    NeedsResizeIffCnt(ed.sec.pad - Change(ed));
  }
}
