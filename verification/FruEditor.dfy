// ipmi_fru_set_field_string_rebuild as the C code runs it: in place, over the old and the
// new image buffer.
module FruEditor {
  import opened Bytes
  import opened HexText
  import opened FruField
  import opened FruLayout
  import opened FruMove
  import opened FruRebuild

  method Strlen(a: array<byte>) returns (n: nat)
    ensures n == |CString(a[..])|
  {
    n := 0;
    while n < a.Length && a[n] != 0
      invariant n <= a.Length && forall j :: 0 <= j < n ==> a[j] != 0
    {
      n := n + 1;
    }
    CStringOf(a[..], a[..n]);
  }

  // ---- 3) seek to the field ----

  ghost function OffsetOf(ed: Edit, k: nat): nat
    requires |ed.h| == 8 && ed.e < 5 && SectionOk(ed.sec) && k <= |ed.sec.fields|
  {
    Ho(ed) + |Before(ed.sec, k)|
  }

  lemma FieldStep(ed: Edit, k: nat)
    requires EditOk(ed) && k < |ed.sec.fields|
    ensures Fits(ed.orig, OffsetOf(ed, k)) && NextField(ed.orig, OffsetOf(ed, k)) == OffsetOf(ed, k + 1)
    ensures Decode(ed.orig, OffsetOf(ed, k)) == FieldText(ed.sec.fields[k].typecode, ed.sec.fields[k].payload)
  {
    hide Decode, FieldText, SectionAt, Storable, ZeroSum, EncodeFields;
    var sec, from, data := ed.sec, Ho(ed) + |ed.sec.prefix|, ed.orig;
    FieldsInImage(data, Ho(ed), SectionLength(ed), sec);
    WalkEncoded(data, from, sec.fields, k);
    DecodeEncoded(data, from, sec.fields, k);
    EncodeUpTo(sec.fields, k);
  }

  // Decodes field after field up to the one wanted; its offset and its decoded string.
  method SeekField(oldBuf: array<byte>, start: nat, fIndex: nat, ghost ed: Edit) returns (area: array?<byte>, tmp: nat)
    requires EditOk(ed) && oldBuf[..] == ed.orig && fIndex == ed.f && start == OffsetOf(ed, 0)
    ensures tmp == FieldOffset(ed)
    ensures area != null ==> fresh(area)
    ensures area == null <==> FieldText(ed.sec.fields[ed.f].typecode, ed.sec.fields[ed.f].payload).None?
    ensures area != null ==> FieldText(ed.sec.fields[ed.f].typecode, ed.sec.fields[ed.f].payload) == Some(CString(area[..]))
  {
    hide Before, SectionAt, Storable;
    var off, i := start, 0;
    ghost var text := FieldText(ed.sec.fields[ed.f].typecode, ed.sec.fields[ed.f].payload);
    area, tmp := null, start;
    while i <= fIndex
      invariant 0 <= i <= fIndex + 1 && off == OffsetOf(ed, i)
      invariant i > fIndex ==> tmp == OffsetOf(ed, fIndex)
      invariant area != null ==> fresh(area)
      invariant i > fIndex ==> (area == null <==> text.None?)
      invariant i > fIndex && area != null ==> text == Some(CString(area[..]))
      invariant oldBuf[..] == ed.orig
    {
      FieldStep(ed, i);
      tmp := off;
      area, off := GetFruAreaStr(oldBuf, off);
      i := i + 1;
    }
  }

  // ---- 5) move the other areas ----

  // One pass of the loop for area i. The internal use area is passed over; of a
  // multirecord area only as many bytes are moved as its first record has data.
  method ShiftArea(oldBuf: array<byte>, newBuf: array<byte>, h: seq<byte>, ho: nat, cnt: int, i: nat, last: nat, end: nat,
      ghost m: Moved)
    returns (h': seq<byte>, last': nat, end': nat)
    requires oldBuf != newBuf && |h| == 8 && i < 5
    requires m == Moved(newBuf[..], h, last, end)
    requires Seen(h, i) ==> CanMove(oldBuf[..], newBuf.Length, Blk(h, i), IsMulti(h, i), ho, cnt)
    modifies newBuf
    ensures MoveArea(oldBuf[..], ho, cnt, m, i) == Moved(newBuf[..], h', last', end')
  {
    hide Splice, MovedLength, EndLength;
    h', last', end' := h, last, end;
    var blk: nat := h[1 + i];
    if blk != 0 && blk != h[1] as int {
      var multi := blk == h[1 + MULTI] as int;
      if last < blk {
        last' := blk;
        end' := AreaEnd(oldBuf, blk, multi);
      }
      if 8 * blk > ho {
        CopyArea(oldBuf, newBuf, blk, multi, cnt);
        h' := h[1 + i := (blk + cnt) % 0x100];
      }
    }
  }

  method AreaEnd(oldBuf: array<byte>, blk: nat, multi: bool) returns (end: nat)
    requires 8 * blk + 2 < oldBuf.Length
    ensures end == 8 * blk + EndLength(oldBuf[..], blk, multi)
  {
    end := 8 * (blk + oldBuf[8 * blk + 1] as int);
    if multi {
      end := 8 * blk;
      if oldBuf[8 * blk + 1] >= 0x80 {
        end := end + oldBuf[8 * blk + 2] as int + 5;
      }
    }
  }

  method CopyArea(oldBuf: array<byte>, newBuf: array<byte>, blk: nat, multi: bool, cnt: int)
    requires oldBuf != newBuf && 8 * blk + 2 < oldBuf.Length && 0 <= blk + cnt
    requires var len := MovedLength(oldBuf[..], blk, multi); 8 * blk + len <= oldBuf.Length && 8 * (blk + cnt) + len <= newBuf.Length
    modifies newBuf
    ensures var len := MovedLength(oldBuf[..], blk, multi);
      newBuf[..] == Splice(old(newBuf[..]), 8 * (blk + cnt), oldBuf[..][8 * blk..8 * blk + len])
  {
    hide Splice;
    var length: nat := if multi then oldBuf[8 * blk + 2] else 8 * oldBuf[8 * blk + 1] as int;
    Memcpy(newBuf, 8 * (blk + cnt), oldBuf, 8 * blk, length);
    assert oldBuf[..][8 * blk..8 * blk + length] == oldBuf[8 * blk..8 * blk + length];
  }

  // The area behind the internal use area that is next so far.
  method NearerArea(h: seq<byte>, i: nat, size: nat, next: nat) returns (nearer: nat)
    requires |h| == 8 && i < 5 && next == NextBlk(h, size, i)
    ensures nearer == NextBlk(h, size, i + 1)
  {
    nearer := next;
    var blk: nat := h[1 + i];
    if blk != 0 && blk != h[1] as int && blk > h[1] as int && blk < next {
      nearer := blk;
    }
  }

  // The loop over all five areas of the header.
  method ShiftAreas(oldBuf: array<byte>, newBuf: array<byte>, h: seq<byte>, size: nat, ho: nat, cnt: int)
    returns (header: seq<byte>, endOfFru: nat, nextAreaBlk: nat, ghost m: Moved)
    requires oldBuf != newBuf && CanMoveAll(oldBuf[..], newBuf.Length, h, ho, cnt)
    modifies newBuf
    ensures m == MoveAreas(oldBuf[..], ho, cnt, Moved(old(newBuf[..]), h, 0, 0), FRU_AREAS_COUNT)
    ensures newBuf[..] == m.img && header == m.h && endOfFru == m.end && nextAreaBlk == NextBlk(h, size, FRU_AREAS_COUNT)
  {
    hide MoveArea, NextBlk;
    header, endOfFru, nextAreaBlk := h, 0, size % 0x100;
    NextStarts(h, size);
    var lastAreaBlk := 0;
    ghost var m0, orig := Moved(newBuf[..], h, 0, 0), oldBuf[..];
    m := m0;
    var i := 0;
    while i < 5
      invariant 0 <= i <= 5 && oldBuf[..] == orig
      invariant m == MoveAreas(orig, ho, cnt, m0, i)
      invariant m == Moved(newBuf[..], header, lastAreaBlk, endOfFru) && nextAreaBlk == NextBlk(h, size, i)
    {
      SameOffsets(h, m.h, i);
      nextAreaBlk := NearerArea(h, i, size, nextAreaBlk);
      header, lastAreaBlk, endOfFru := ShiftArea(oldBuf, newBuf, header, ho, cnt, i, lastAreaBlk, endOfFru, m);
      m := MoveArea(orig, ho, cnt, m, i);
      i := i + 1;
    }
  }

  lemma NextStarts(h: seq<byte>, size: nat)
    requires |h| == 8
    ensures NextBlk(h, size, 0) == size % 0x100
  {
  }

  // The internal use area is moved only if its block number exceeds the section's byte
  // offset, and then by as many bytes as there are blocks up to the next area.
  method ShiftInternal(oldBuf: array<byte>, newBuf: array<byte>, h: seq<byte>, header: seq<byte>, size: nat, ho: nat, cnt: int, next: nat,
      ghost m: Moved)
    returns (header': seq<byte>)
    requires oldBuf != newBuf && |h| == 8 && |m.h| == 8 && CanMoveInternal(oldBuf[..], newBuf.Length, h, size, ho, cnt)
    requires newBuf[..] == m.img && header == m.h && header[1] == h[1] && next == NextBlk(h, size, FRU_AREAS_COUNT)
    modifies newBuf
    ensures newBuf[..] == MoveInternal(oldBuf[..], h, size, ho, cnt, m).img && header' == MoveInternal(oldBuf[..], h, size, ho, cnt, m).h
  {
    hide Splice, NextBlk;
    header' := header;
    var internal: nat := header[1];
    if internal != 0 && internal > ho {
      var length := next - internal;
      Memcpy(newBuf, 8 * internal + 8 * cnt, oldBuf, 8 * internal, length);
      assert oldBuf[..][8 * internal..8 * internal + length] == oldBuf[8 * internal..8 * internal + length];
      header' := header[1 := (internal + cnt) % 0x100];
    }
  }

  // Header checksum, header copy, erased tail.
  method FinishHeader(newBuf: array<byte>, h: seq<byte>, endOfFru: nat, cnt: int, ghost m: Moved) returns (header: seq<byte>)
    requires |m.h| == 8 && 8 <= |m.img| && CanErase(m, cnt)
    requires newBuf[..] == m.img && h == m.h && endOfFru == m.end
    modifies newBuf
    ensures newBuf[..] == Finish(m, cnt).img && header == Finish(m, cnt).h
  {
    var local := new byte[8](i requires 0 <= i < 8 => h[i]);
    assert local[..] == h;
    var sum := FruCalcChecksum(local, 0, 8);
    assert local[0..7] == h[..7];
    local[7] := sum;
    header := local[..];
    Memcpy(newBuf, 0, local, 0, 8);
    assert local[0..8] == header;
    if cnt < 0 {
      Memzero(newBuf, endOfFru + 8 * cnt, -8 * cnt);
    }
  }

  // Step 5 as a whole; it also changes the old image's length byte.
  method Resize(oldBuf: array<byte>, newBuf: array<byte>, size: nat, h: seq<byte>, ho: nat, cnt: int, ghost ed: Edit)
    returns (header: seq<byte>)
    requires EditOk(ed) && oldBuf != newBuf && oldBuf[..] == ed.orig && newBuf.Length == Room(ed)
    requires size == ed.size && h == ed.h && ho == Ho(ed) && cnt == Cnt(ed) != 0
    modifies newBuf, oldBuf
    ensures newBuf[..] == MovedImage(ed, old(newBuf[..])).img && header == NewHeader(ed, old(newBuf[..]))
    ensures forall x :: 0 <= x < oldBuf.Length && x != ho + 1 ==> oldBuf[x] == ed.orig[x]
  {
    hide MoveAreas, MoveInternal, Finish, SectionAt, Storable, ResizeOk, MovedImage;
    ghost var img0 := newBuf[..];
    RelocatedIs(ed, img0);
    var endOfFru, next; ghost var m;
    header, endOfFru, next, m := ShiftAreas(oldBuf, newBuf, h, size, ho, cnt);
    header := ShiftInternal(oldBuf, newBuf, h, header, size, ho, cnt, next, m);
    m := MoveInternal(ed.orig, h, size, ho, cnt, m);
    oldBuf[ho + 1] := (oldBuf[ho + 1] as int + cnt) % 0x100;
    header := FinishHeader(newBuf, header, endOfFru, cnt, m);
  }

  // ---- 6) rewrite the field and the section ----

  method RewriteInPlace(newBuf: array<byte>, oldBuf: array<byte>, ho: nat, fo: nat, oldLen: nat, s: seq<byte>, len: nat, pad: nat)
    requires newBuf != oldBuf && |s| < 64
    requires ho <= fo && fo + |s| + 2 + pad <= ho + len <= newBuf.Length
    requires fo + 1 + oldLen + (ho + len - 1 - (fo + |s| + 1)) <= oldBuf.Length
    modifies newBuf
    ensures newBuf[..] == RewriteField(old(newBuf[..]), oldBuf[..], ho, fo, oldLen, s, len, pad)
  {
    hide Splice;
    ghost var img, orig := newBuf[..], oldBuf[..];
    StoreByte(newBuf, fo, 0xc0 + |s|);
    StoreString(newBuf, fo + 1, s);
    var rest := ho + len - 1 - (fo + |s| + 1);
    Memcpy(newBuf, fo + 1 + |s|, oldBuf, fo + 1 + oldLen, rest);
    assert oldBuf[fo + 1 + oldLen..fo + 1 + oldLen + rest] == orig[fo + 1 + oldLen..fo + 1 + oldLen + rest];
    Memzero(newBuf, ho + len - 1 - pad, pad);
    ghost var n3 := newBuf[..];
    var cksum: nat := SumBytes(newBuf, ho, len - 1);
    assert newBuf[ho..ho + len - 1] == n3[ho..ho + len - 1];
    newBuf[ho + len - 1] := (0x100 - cksum) % 0x100;
  }

  method StoreByte(dst: array<byte>, at: nat, b: byte)
    requires at < dst.Length
    modifies dst
    ensures dst[..] == Splice(old(dst[..]), at, [b])
  {
    dst[at] := b;
  }

  // Copies the characters of a C string.
  method StoreString(dst: array<byte>, at: nat, s: seq<byte>)
    requires at + |s| <= dst.Length
    modifies dst
    ensures dst[..] == Splice(old(dst[..]), at, s)
  {
    forall i | 0 <= i < |s| {
      dst[at + i] := s[i];
    }
  }

  lemma RewriteIgnoresFront(img: seq<byte>, a: seq<byte>, b: seq<byte>, ho: nat, fo: nat, oldLen: nat, s: seq<byte>, len: nat, pad: nat)
    requires |s| < 64 && |a| == |b|
    requires ho <= fo && fo + |s| + 2 + pad <= ho + len <= |img|
    requires fo + 1 + oldLen + (ho + len - 1 - (fo + |s| + 1)) <= |a|
    requires forall x :: fo <= x < |a| ==> a[x] == b[x]
    ensures RewriteField(img, a, ho, fo, oldLen, s, len, pad) == RewriteField(img, b, ho, fo, oldLen, s, len, pad)
  {
    var n := fo + 1 + oldLen + (ho + len - 1 - (fo + |s| + 1));
    assert a[fo + 1 + oldLen..n] == b[fo + 1 + oldLen..n];
  }

  lemma FirstField(ed: Edit)
    requires EditOk(ed)
    ensures OffsetOf(ed, 0) == Ho(ed) + |ed.sec.prefix|
  {
    assert ed.sec.fields[..0] == [];
  }

  // A replaceable field has a text exactly when it has a payload, and then it is it.
  lemma FieldIsText(ed: Edit)
    requires EditOk(ed)
    ensures var f := ed.sec.fields[ed.f];
      var t := FieldText(f.typecode, f.payload);
      && (f.payload == [] ==> t.None? || t.value == [])
      && (f.payload != [] ==> t == Some(f.payload))
  {
    var f := ed.sec.fields[ed.f];
    if f.payload != [] {
      CStringOf(f.payload, f.payload);
    }
  }

  // ---- the editor ----

  // Steps 3 and 4: find the field, measure it and the section's padding. Not ok when
  // the field has no text.
  method Measure(oldBuf: array<byte>, ho: nat, start: nat, sectionLen: nat, fIndex: nat, ghost ed: Edit)
    returns (ok: bool, fo: nat, oldLen: nat, pad: nat)
    requires EditOk(ed) && oldBuf[..] == ed.orig && fIndex == ed.f
    requires ho == Ho(ed) && start == ho + |ed.sec.prefix| && sectionLen == SectionLength(ed)
    ensures ok <==> ed.sec.fields[ed.f].payload != []
    ensures ok ==> fo == FieldOffset(ed) && oldLen == OldLength(ed) && pad == ed.sec.pad
  {
    hide SectionAt, Storable, FieldText, TrailingZeros;
    ok, oldLen, pad := false, 0, 0;
    FirstField(ed);
    var text;
    text, fo := SeekField(oldBuf, start, fIndex, ed);
    FieldIsText(ed);
    if text == null {
      return;
    }
    oldLen := Strlen(text);
    if oldLen == 0 {
      return;
    }
    SectionHasTwoBytes(ed);
    pad := CountPadding(oldBuf, ho, sectionLen);
    assert ed.orig[ho + 1..ho + sectionLen - 1] == oldBuf[ho + 1..ho + sectionLen - 1];
    ok := true;
  }

  lemma SectionHasTwoBytes(ed: Edit)
    requires EditOk(ed)
    ensures SectionLength(ed) >= 2 && Ho(ed) + SectionLength(ed) <= |ed.orig|
    ensures TrailingZeros(ed.orig[Ho(ed) + 1..Ho(ed) + SectionLength(ed) - 1]) == ed.sec.pad
  {
    PaddingOfSection(ed.orig, Ho(ed), SectionLength(ed), ed.sec);
  }

  // Steps 5 and 6 on a new buffer that starts with a copy of the old image.
  method Apply(oldBuf: array<byte>, newBuf: array<byte>, size: nat, h: seq<byte>, ho: nat, sectionLen: nat, fo: nat, oldLen: nat,
      s: seq<byte>, pad: nat, ghost ed: Edit)
    returns (newSize: nat, header: seq<byte>)
    requires EditOk(ed) && oldBuf != newBuf && oldBuf[..] == ed.orig && newBuf.Length == Room(ed)
    requires h == ed.h && ho == Ho(ed) && sectionLen == SectionLength(ed) && s == ed.s && size == ed.size
    requires fo == FieldOffset(ed) && oldLen == OldLength(ed) && pad == ed.sec.pad
    modifies oldBuf, newBuf
    ensures newBuf[..] == NewImage(ed, old(newBuf[..])) && header == NewHeader(ed, old(newBuf[..]))
    ensures newSize == (size + 8 * Cnt(ed)) % 0x1_0000
  {
    hide SectionAt, MovedImage, RewriteField, Relocate;
    ghost var img0 := newBuf[..];
    var change, newLen := |s| - oldLen, sectionLen;
    var padding := pad - change;
    assert change == Change(ed) && ChangeBlocks(padding) == Cnt(ed);
    NeedsResizeIffCnt(padding);
    ResizeArithmetic(padding);
    NoResize(ed, img0);
    EditIsShiftable(ed);
    header, newSize := h, size % 0x1_0000;
    if NeedsResize(padding) {
      var cnt := ChangeBlocks(padding);
      newLen := newLen + 8 * cnt;
      padding := padding + 8 * cnt;
      header := Resize(oldBuf, newBuf, size, h, ho, cnt, ed);
      newSize := (size + 8 * cnt) % 0x1_0000;
    }
    assert newLen == SectionLength(ed) + 8 * Cnt(ed) && padding == NewPad(ed);
    ghost var img := newBuf[..];
    assert img == MovedImage(ed, img0).img;
    EditCanRewrite(ed, img);
    assert |s| < 64;
    RewriteInPlace(newBuf, oldBuf, ho, fo, oldLen, s, newLen, padding);
    RewriteIgnoresFront(img, oldBuf[..], ed.orig, ho, fo, oldLen, s, newLen, padding);
  }

  lemma NoResize(ed: Edit, img0: seq<byte>)
    requires EditOk(ed) && |img0| == Room(ed)
    ensures Cnt(ed) == 0 ==> MovedImage(ed, img0) == Moved(img0, ed.h, 0, 0)
    ensures NewHeader(ed, img0) == MovedImage(ed, img0).h
  {
  }

  // Where the area of a letter starts, and its first field.
  method LocateSection(fType: char, h: seq<byte>) returns (known: bool, ho: nat, first: nat)
    requires |h| == 8
    ensures known <==> fType == 'c' || fType == 'b' || fType == 'p'
    ensures known ==> ho == 8 * h[if fType == 'c' then 2 else if fType == 'b' then 3 else 4] as int
    ensures known ==> first == ho + if fType == 'b' then 6 else 3
  {
    known, ho, first := true, 0, 0;
    match fType {
      case 'c' =>
        ho := 8 * h[2] as int;
        first := ho + 3;
      case 'b' =>
        ho := 8 * h[3] as int;
        first := ho + 6;
      case 'p' =>
        ho := 8 * h[4] as int;
        first := ho + 3;
      case _ =>
        known := false;
    }
  }

  // Replace field f_index of an area by the string s. oldBuf holds the FRU image (and
  // whatever lies behind it in memory), newBuf is uninitialised. The result is -1 for a
  // wrong area letter and for a field without text; newSize is the new FRU size.
  method SetFieldStringRebuild(oldBuf: array<byte>, newBuf: array<byte>, size: nat, h: seq<byte>, fType: char, fIndex: nat,
      s: seq<byte>, ghost ed: Edit)
    returns (rc: int, newSize: nat, header: seq<byte>)
    requires oldBuf != newBuf && size <= newBuf.Length && size <= oldBuf.Length
    requires |h| == 8
    requires fType == 'c' || fType == 'b' || fType == 'p' ==>
      && ed == Edit(oldBuf[..], size, h, ed.e, ed.sec, fIndex, s) && EditOk(ed) && newBuf.Length == Room(ed)
      && Ho(ed) == 8 * h[if fType == 'c' then 2 else if fType == 'b' then 3 else 4] as int
      && |ed.sec.prefix| == if fType == 'b' then 6 else 3
    modifies oldBuf, newBuf
    ensures rc == -1 || rc == 1
    ensures rc == -1 <==> !(fType == 'c' || fType == 'b' || fType == 'p') || ed.sec.fields[ed.f].payload == []
    ensures rc == 1 ==>
      var at := if fType == 'c' then 8 * h[2] as int else if fType == 'b' then 8 * h[3] as int else 8 * h[4] as int;
      var first := if fType == 'b' then at + 6 else at + 3;
      EditedAt(ed, newBuf[..], at, first)
    ensures rc == -1 ==> newBuf[..] == Splice(old(newBuf[..]), 0, old(oldBuf[..size]))
    ensures rc == 1 ==>
      var img0 := Splice(old(newBuf[..]), 0, old(oldBuf[..size]));
      && newBuf[..] == NewImage(ed, img0) && header == NewHeader(ed, img0)
      && SectionReplaced(ed, newBuf[..]) && OthersKept(ed, newBuf[..], header)
      && TailErased(ed, newBuf[..], MovedImage(ed, img0).end)
      && newSize == (size + 8 * Cnt(ed)) % 0x1_0000
  {
    hide NewImage, NewHeader, SectionReplaced, OthersKept, TailErased, MovedImage, EditOk, EditedAt;
    rc, newSize, header := -1, size % 0x1_0000, h;
    Memcpy(newBuf, 0, oldBuf, 0, size);
    ghost var img0 := newBuf[..];
    var known, ho, first := LocateSection(fType, h);
    if !known {
      return;
    }
    Basics(ed);
    var sectionLen := 8 * oldBuf[ho + 1] as int;
    var ok, fo, oldLen, pad := Measure(oldBuf, ho, first, sectionLen, fIndex, ed);
    if !ok {
      return;
    }
    assert img0[..size] == ed.orig[..size];
    newSize, header := Apply(oldBuf, newBuf, size, h, ho, sectionLen, fo, oldLen, s, pad, ed);
    SectionIsReplaced(ed, img0);
    ReplacedIsEditedAt(ed, newBuf[..]);
    OthersAreKept(ed, img0);
    rc := 1;
  }
}
