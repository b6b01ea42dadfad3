// Where the relocation puts the internal use area, and what it takes for the end of the
// FRU, in bytes of the header and the image.
module FruInternal {
  import opened Bytes
  import opened FruMove
  import opened FruRelocate

  // Header byte 1 is the offset of the internal use area; bytes 2 to 5 are those of the
  // others. `next` is the nearest of them behind it or, without one, the low byte of the
  // FRU size; also if that is smaller.
  ghost predicate IsNext(h: seq<byte>, size: nat, next: nat)
    requires |h| == 8
  {
    && next <= size % 0x100
    && (forall i :: 2 <= i <= 5 && h[i] > h[1] ==> next <= h[i] as int)
    && (next == size % 0x100 || exists i :: 2 <= i <= 5 && h[i] > h[1] && h[i] as int == next)
  }

  lemma NextBlkIsNext(h: seq<byte>, size: nat, next: nat)
    requires |h| == 8 && IsNext(h, size, next)
    ensures NextBlk(h, size, FRU_AREAS_COUNT) == next
  {
    assert NextBlk(h, size, 0) == size % 0x100 && NextBlk(h, size, 1) == NextBlk(h, size, 0);
    var n2, n3, n4 := NextBlk(h, size, 2), NextBlk(h, size, 3), NextBlk(h, size, 4);
    assert Blk(h, 1) == h[2] && Blk(h, 2) == h[3] && Blk(h, 3) == h[4] && Blk(h, 4) == h[5];
    assert n2 == if h[2] > h[1] && h[2] as int < size % 0x100 then h[2] as int else size % 0x100;
    assert n3 == if h[3] > h[1] && h[3] as int < n2 then h[3] as int else n2;
    assert n4 == if h[4] > h[1] && h[4] as int < n3 then h[4] as int else n3;
  }

  // Bytes from..from + n of the old image stand 8 * cnt bytes further, except those that
  // are erased.
  ghost predicate MovedUnlessErased(orig: seq<byte>, r: Moved, from: nat, n: nat, cnt: int) {
    forall x :: from <= x < from + n ==> ByteMoved(orig, r, cnt, x)
  }

  ghost predicate ByteMoved(orig: seq<byte>, r: Moved, cnt: int, x: nat) {
    && x < |orig| && 0 <= x + 8 * cnt < |r.img|
    && r.img[x + 8 * cnt] == if cnt < 0 && r.end <= x < r.end - 8 * cnt then 0 else orig[x]
  }

  // An internal use area behind the edited one, in the sense of the code: its block number
  // exceeds the byte offset ho. As many bytes are moved as there are blocks up to the next
  // area, and the header has its new offset.
  lemma InternalMoved(orig: seq<byte>, img0: seq<byte>, size: nat, h: seq<byte>, e: nat, cnt: int, next: nat)
    requires Shiftable(orig, size, |img0|, h, e, cnt) && img0[..size] == orig[..size] && IsNext(h, size, next)
    requires h[1] as int > 8 * h[1 + e] as int
    ensures CanRelocate(orig, img0, h, size, Start(h, e), cnt)
    ensures var r := Relocate(orig, img0, h, size, Start(h, e), cnt);
      && |r.h| == 8 && r.h[1] as int == h[1] as int + cnt && h[1] as int <= next
      && MovedUnlessErased(orig, r, 8 * h[1] as int, next - h[1] as int, cnt)
  {
    NextBlkIsNext(h, size, next);
    assert Moves(h, Start(h, e), INTERNAL);
    InternalIsApart(orig, size, |img0|, h, e, cnt, e);
    ShiftableCanRelocate(orig, img0, size, h, e, cnt);
    ShiftableLoopOk(orig, size, |img0|, h, e, cnt);
    RelocateIs(orig, img0, h, size, Start(h, e), cnt);
    RelocateOk(orig, img0, size, h, e, cnt);
    InternalBehindHeader(orig, size, |img0|, h, e, cnt);
    var m := MoveAreas(orig, Start(h, e), cnt, Moved(img0, h, 0, 0), FRU_AREAS_COUNT);
    hide Shiftable, CanRelocate, Relocate, MoveAreas, Relocated, NextBlk;
    MovedByInternal(orig, h, size, Start(h, e), cnt, m, next);
  }

  // In all other cases the header keeps its offset.
  lemma InternalStays(orig: seq<byte>, img0: seq<byte>, size: nat, h: seq<byte>, e: nat, cnt: int)
    requires Shiftable(orig, size, |img0|, h, e, cnt) && img0[..size] == orig[..size]
    requires h[1] as int <= 8 * h[1 + e] as int
    ensures CanRelocate(orig, img0, h, size, Start(h, e), cnt)
    ensures var r := Relocate(orig, img0, h, size, Start(h, e), cnt); |r.h| == 8 && r.h[1] == h[1]
  {
    RelocateOk(orig, img0, size, h, e, cnt);
    hide Relocate, CanRelocate;
    assert Blk(Relocate(orig, img0, h, size, Start(h, e), cnt).h, INTERNAL) as int == NewBlk(h, Start(h, e), cnt, INTERNAL);
  }

  lemma InternalBehindHeader(orig: seq<byte>, size: nat, room: nat, h: seq<byte>, e: nat, cnt: int)
    requires Shiftable(orig, size, room, h, e, cnt) && Moves(h, Start(h, e), INTERNAL)
    ensures 8 <= Start(h, INTERNAL) + 8 * cnt && h[1] as int + cnt < 0x100
  {
    InternalIsApart(orig, size, room, h, e, cnt, e);
    assert 8 <= Start(h, e);
    assert Blk(h, INTERNAL) + cnt < 0x100;
  }

  lemma MovedByInternal(orig: seq<byte>, h: seq<byte>, size: nat, ho: nat, cnt: int, m: Moved, next: nat)
    requires |m.h| == 8 && CanMoveInternal(orig, |m.img|, h, size, ho, cnt) && Moves(h, ho, INTERNAL)
    requires next == NextBlk(h, size, FRU_AREAS_COUNT) && 8 <= |m.img| && CanErase(m, cnt)
    requires 8 <= Start(h, INTERNAL) + 8 * cnt && h[1] as int + cnt < 0x100
    ensures var r := Finish(MoveInternal(orig, h, size, ho, cnt, m), cnt);
      && |r.h| == 8 && r.h[1] as int == h[1] as int + cnt && h[1] as int <= next
      && MovedUnlessErased(orig, r, 8 * h[1] as int, next - h[1] as int, cnt)
  {
    var from, n := Start(h, INTERNAL), next - h[1] as int;
    var m1 := MoveInternal(orig, h, size, ho, cnt, m);
    SplicedIn(orig, h, size, ho, cnt, m, next);
    hide MoveInternal;
    var r := Finish(m1, cnt);
    forall x | from <= x < from + n ensures ByteMoved(orig, r, cnt, x) {
      assert m1.img[x + 8 * cnt] == orig[x];
      FinishedByte(m1, cnt, x + 8 * cnt);
    }
  }

  lemma SplicedIn(orig: seq<byte>, h: seq<byte>, size: nat, ho: nat, cnt: int, m: Moved, next: nat)
    requires |m.h| == 8 && CanMoveInternal(orig, |m.img|, h, size, ho, cnt) && Moves(h, ho, INTERNAL)
    requires next == NextBlk(h, size, FRU_AREAS_COUNT) && h[1] as int + cnt < 0x100
    ensures var from, n, m1 := Start(h, INTERNAL), next - h[1] as int, MoveInternal(orig, h, size, ho, cnt, m);
      && 0 <= n && from + n <= |orig| && 0 <= from + 8 * cnt && from + 8 * cnt + n <= |m1.img|
      && |m1.h| == 8 && m1.h[1] as int == h[1] as int + cnt
      && forall x :: from <= x < from + n ==> m1.img[x + 8 * cnt] == orig[x]
  {
    hide NextBlk;
    var from, n := Start(h, INTERNAL), next - h[1] as int;
    assert forall x :: from <= x < from + n ==> orig[from..from + n][x - from] == orig[x];
  }

  lemma FinishedByte(m: Moved, cnt: int, x: nat)
    requires |m.h| == 8 && 8 <= |m.img| && CanErase(m, cnt) && 8 <= x < |m.img|
    ensures var r := Finish(m, cnt);
      && |r.h| == 8 && r.h[1] == m.h[1] && r.end == m.end
      && r.img[x] == if cnt < 0 && m.end + 8 * cnt <= x < m.end then 0 else m.img[x]
  {
  }

  // The end of the FRU, from which a shrunken one is erased, is that of the area with the
  // greatest offset, the internal use area aside: for a multirecord area the end of its
  // first record if that is flagged as the last, and otherwise where it starts.
  lemma EndIsLastArea(orig: seq<byte>, img0: seq<byte>, size: nat, h: seq<byte>, e: nat, cnt: int)
    requires Shiftable(orig, size, |img0|, h, e, cnt)
    ensures CanRelocate(orig, img0, h, size, Start(h, e), cnt)
    ensures exists l :: LastArea(orig, h, l, Relocate(orig, img0, h, size, Start(h, e), cnt).end)
  {
    ShiftableCanRelocate(orig, img0, size, h, e, cnt);
    ShiftableLoopOk(orig, size, |img0|, h, e, cnt);
    MoveAreasEnd(orig, img0, h, Start(h, e), cnt, FRU_AREAS_COUNT);
    RelocateIs(orig, img0, h, size, Start(h, e), cnt);
    hide MoveAreas, Relocate, MoveInternal, Shiftable, CanRelocate, CanMoveAll;
    var m := MoveAreas(orig, Start(h, e), cnt, Moved(img0, h, 0, 0), FRU_AREAS_COUNT);
    EditedIsSeen(orig, size, |img0|, h, e, cnt);
    EndOfLast(orig, h, e, m);
  }

  lemma EditedIsSeen(orig: seq<byte>, size: nat, room: nat, h: seq<byte>, e: nat, cnt: int)
    requires Shiftable(orig, size, room, h, e, cnt)
    ensures Seen(h, e)
  {
  }

  lemma EndOfLast(orig: seq<byte>, h: seq<byte>, e: nat, m: Moved)
    requires |h| == 8 && e < 5 && EndOk(orig, h, m, FRU_AREAS_COUNT) && Seen(h, e)
    ensures exists l :: LastArea(orig, h, l, m.end)
  {
    assert Blk(h, e) <= m.last;
    var l :| 0 <= l < 5 && EndsAt(orig, h, m, l);
    forall i | 2 <= i <= 5 && h[i] != 0 && h[i] != h[1] ensures h[i] <= h[1 + l] {
      assert Seen(h, i - 1);
    }
    assert LastArea(orig, h, 1 + l, m.end);
  }

  ghost predicate LastArea(orig: seq<byte>, h: seq<byte>, l: nat, end: nat)
    requires |h| == 8
  {
    && 2 <= l <= 5 && h[l] != 0 && h[l] != h[1] && 8 * h[l] as int + 2 < |orig|
    && (forall i :: 2 <= i <= 5 && h[i] != 0 && h[i] != h[1] ==> h[i] <= h[l])
    && var at := 8 * h[l] as int;
       end == at + if h[l] != h[5] then 8 * orig[at + 1] as int else if orig[at + 1] >= 0x80 then orig[at + 2] as int + 5 else 0
  }
}
