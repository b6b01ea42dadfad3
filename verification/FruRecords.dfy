// What a resize does to a multirecord area.
module FruRecords {
  import opened Bytes
  import opened FruField
  import opened FruLayout
  import opened FruMove
  import opened FruRelocate
  import opened FruRebuild
  import Multirecord

  // ---- one image ----

  // The area's `total` bytes stand at `to` in the image.
  ghost predicate Kept(orig: seq<byte>, img: seq<byte>, from: nat, to: int, total: nat) {
    from + total <= |orig| && 0 <= to && to + total <= |img| && img[to..to + total] == orig[from..from + total]
  }

  // A multirecord area of `total` bytes that moves: it starts with its first record, is
  // that record alone if the record is flagged as the last, lies inside the FRU, and apart
  // from the info areas and from what is moved of the internal use area.
  ghost predicate AreaMoves(orig: seq<byte>, size: nat, h: seq<byte>, e: nat, total: nat)
    requires AreasOk(orig, h, size) && e < 5
  {
    var from := Start(h, MULTI);
    && Moves(h, Start(h, e), MULTI) && Blk(h, MULTI) != Blk(h, INTERNAL)
    && 5 <= total && from + total <= size && orig[from + 2] as int + 5 <= total
    && (orig[from + 1] >= 0x80 ==> total == orig[from + 2] as int + 5)
    && AreaApart(orig, h, e, total)
  }

  ghost predicate AreaApart(orig: seq<byte>, h: seq<byte>, e: nat, total: nat)
    requires |h| == 8 && e < 5
  {
    var from := Start(h, MULTI);
    && (forall i :: 0 <= i < 5 && Info(i) && Present(h, i) && Start(h, i) + 1 < |orig| ==>
          Start(h, i) + Length(orig, h, i) <= from || from + total <= Start(h, i))
    && (Moves(h, Start(h, e), INTERNAL) && Blk(h, MULTI) < Blk(h, INTERNAL) ==> from + total <= Start(h, INTERNAL))
  }

  // No area lies behind the multirecord area.
  ghost predicate IsLast(h: seq<byte>)
    requires |h| == 8
  {
    forall i :: 0 <= i < 5 && Seen(h, i) ==> Blk(h, i) <= Blk(h, MULTI)
  }

  // The FRU shrinks and its end is taken to be where the area starts, so that the start of
  // the moved area is cleared.
  ghost predicate Wiped(orig: seq<byte>, h: seq<byte>, cnt: int)
    requires |h| == 8 && Start(h, MULTI) + 1 < |orig|
  {
    cnt < 0 && IsLast(h) && orig[Start(h, MULTI) + 1] < 0x80
  }

  // Byte x of the moved area, before anything is cleared: the first record's data length
  // comes from the old area, everything else from the buffer.
  function MovedByte(orig: seq<byte>, img0: seq<byte>, from: nat, to: nat, x: nat): byte
    requires from + 2 < |orig| && from + orig[from + 2] as int <= |orig| && to <= x < |img0|
  {
    if x < to + orig[from + 2] as int then orig[from + (x - to)] else img0[x]
  }

  lemma LoopByte(orig: seq<byte>, img0: seq<byte>, size: nat, h: seq<byte>, e: nat, cnt: int, total: nat, m: Moved, x: nat)
    requires Shiftable(orig, size, |img0|, h, e, cnt) && AreaMoves(orig, size, h, e, total)
    requires LoopDone(orig, img0, h, Start(h, e), cnt, m, 5)
    requires Start(h, MULTI) + 8 * cnt <= x < Start(h, MULTI) + 8 * cnt + total && x < |img0|
    ensures 8 <= Start(h, e) < Start(h, MULTI) + 8 * cnt
    ensures m.img[x] == MovedByte(orig, img0, Start(h, MULTI), Start(h, MULTI) + 8 * cnt, x)
  {
    var from, to := Start(h, MULTI), Start(h, MULTI) + 8 * cnt;
    NewPlace(orig, size, |img0|, h, e, cnt, MULTI);
    assert to >= Limit(orig, h, e, cnt);
    if x < to + orig[from + 2] as int {
      assert Landed(orig, m.img, h, cnt, MULTI);
      LandedByte(orig, m.img, h, cnt, x);
    } else {
      TailIsFree(orig, size, |img0|, h, e, cnt, total, x);
    }
  }

  lemma LandedByte(orig: seq<byte>, img: seq<byte>, h: seq<byte>, cnt: int, x: nat)
    requires |h| == 8 && Start(h, MULTI) + 2 < |orig| && Landed(orig, img, h, cnt, MULTI)
    requires Start(h, MULTI) + 8 * cnt <= x < Start(h, MULTI) + 8 * cnt + orig[Start(h, MULTI) + 2] as int
    ensures x < |img| && Start(h, MULTI) + orig[Start(h, MULTI) + 2] as int <= |orig|
    ensures img[x] == orig[Start(h, MULTI) + (x - (Start(h, MULTI) + 8 * cnt))]
  {
    var from, n, to := Start(h, MULTI), Part(orig, h, MULTI), Start(h, MULTI) + 8 * cnt;
    assert img[to..to + n][x - to] == orig[from..from + n][x - to];
  }

  // Behind its moved part, no byte of the area is in a place.
  lemma TailIsFree(orig: seq<byte>, size: nat, room: nat, h: seq<byte>, e: nat, cnt: int, total: nat, x: nat)
    requires Shiftable(orig, size, room, h, e, cnt) && AreaMoves(orig, size, h, e, total)
    requires Start(h, MULTI) + 8 * cnt + orig[Start(h, MULTI) + 2] as int <= x < Start(h, MULTI) + 8 * cnt + total
    ensures Free(orig, h, Start(h, e), cnt, 5, x)
  {
    forall i | 0 < i < 5 && Moves(h, Start(h, e), i) && Start(h, i) + 2 < |orig| ensures !InPlace(orig, h, cnt, i, x) {
      if i != MULTI {
        NewPlace(orig, size, room, h, e, cnt, i);
      }
    }
  }

  lemma InternalMisses(orig: seq<byte>, size: nat, h: seq<byte>, e: nat, cnt: int, total: nat, m: Moved, x: nat)
    requires AreasOk(orig, h, size) && e < 5 && AreaMoves(orig, size, h, e, total) && |m.h| == 8
    requires CanMoveInternal(orig, |m.img|, h, size, Start(h, e), cnt)
    requires Start(h, MULTI) + 8 * cnt <= x < Start(h, MULTI) + 8 * cnt + total && x < |m.img|
    ensures MoveInternal(orig, h, size, Start(h, e), cnt, m).img[x] == m.img[x]
  {
    if Moves(h, Start(h, e), INTERNAL) && Blk(h, MULTI) > Blk(h, INTERNAL) {
      NextIsNear(h, size, FRU_AREAS_COUNT, MULTI);
    }
  }

  // The end of the FRU as the loop sees it: behind the first record, or where the area
  // starts, if the area is the last one; otherwise behind the area.
  lemma EndSeen(orig: seq<byte>, size: nat, room: nat, h: seq<byte>, e: nat, cnt: int, total: nat, m: Moved)
    requires Shiftable(orig, size, room, h, e, cnt) && AreaMoves(orig, size, h, e, total) && EndOk(orig, h, m, 5)
    ensures IsLast(h) ==> m.end == Start(h, MULTI) + if orig[Start(h, MULTI) + 1] >= 0x80 then total else 0
    ensures !IsLast(h) ==> Start(h, MULTI) + total <= m.end
  {
    assert Seen(h, MULTI) && Blk(h, MULTI) <= m.last;
    var l :| 0 <= l < 5 && EndsAt(orig, h, m, l);
    if Info(l) {
      assert AreaInside(orig, h, size, l) && !IsLast(h);
    } else {
      assert l == MULTI && IsLast(h);
    }
  }

  // Where the clearing hits the moved area.
  lemma EraseByte(orig: seq<byte>, h: seq<byte>, cnt: int, total: nat, n: Moved, x: nat)
    requires |h| == 8 && Start(h, MULTI) + 1 < |orig|
    requires |n.h| == 8 && 8 <= |n.img| && CanErase(n, cnt)
    requires IsLast(h) ==> n.end == Start(h, MULTI) + if orig[Start(h, MULTI) + 1] >= 0x80 then total else 0
    requires !IsLast(h) ==> Start(h, MULTI) + total <= n.end
    requires 8 <= Start(h, MULTI) + 8 * cnt <= x < Start(h, MULTI) + 8 * cnt + total && x < |n.img|
    ensures Finish(n, cnt).img[x] == if Wiped(orig, h, cnt) && x < Start(h, MULTI) then 0 else n.img[x]
  {
    hide IsLast;
  }

  // Every byte of the area in the final image.
  lemma FinalByte(orig: seq<byte>, img0: seq<byte>, size: nat, h: seq<byte>, e: nat, cnt: int, total: nat, x: nat)
    requires Shiftable(orig, size, |img0|, h, e, cnt) && AreaMoves(orig, size, h, e, total)
    requires Start(h, MULTI) + 8 * cnt <= x < Start(h, MULTI) + 8 * cnt + total && x < |img0|
    ensures CanRelocate(orig, img0, h, size, Start(h, e), cnt) && 8 <= Start(h, e) < Start(h, MULTI) + 8 * cnt
    ensures Relocate(orig, img0, h, size, Start(h, e), cnt).img[x]
      == if Wiped(orig, h, cnt) && x < Start(h, MULTI) then 0 else MovedByte(orig, img0, Start(h, MULTI), Start(h, MULTI) + 8 * cnt, x)
  {
    ShiftableCanRelocate(orig, img0, size, h, e, cnt);
    ShiftableLoopOk(orig, size, |img0|, h, e, cnt);
    var ho := Start(h, e);
    hide LoopDone, Relocate, CanRelocate, LoopOk, EndOk, MoveInternal, Finish, MovedByte, Wiped, MoveAreas;
    var m := MoveAreas(orig, ho, cnt, Moved(img0, h, 0, 0), FRU_AREAS_COUNT);
    MoveAreasDone(orig, img0, h, ho, cnt, Limit(orig, h, e, cnt), FRU_AREAS_COUNT);
    MoveAreasEnd(orig, img0, h, ho, cnt, FRU_AREAS_COUNT);
    RelocateIs(orig, img0, h, size, ho, cnt);
    LoopByte(orig, img0, size, h, e, cnt, total, m, x);
    InternalMisses(orig, size, h, e, cnt, total, m, x);
    EndSeen(orig, size, |img0|, h, e, cnt, total, m);
    EraseByte(orig, h, cnt, total, MoveInternal(orig, h, size, ho, cnt, m), x);
  }

  // Byte x of the old area is one whose new place is cleared.
  predicate Cleared(wiped: bool, from: nat, cnt: int, x: nat) {
    wiped && x + 8 * cnt < from
  }

  // The exact condition for one image, on the old image and the buffer: the area fits the
  // new image, the bytes that are cleared were zero, and the others behind the first
  // record's data length are already in their new place.
  ghost predicate KeptCondition(orig: seq<byte>, img0: seq<byte>, from: nat, cnt: int, wiped: bool, len: nat, total: nat)
    requires from + total <= |orig|
  {
    && 0 <= from + 8 * cnt && from + 8 * cnt + total <= |img0|
    && (forall x :: from <= x < from + total && Cleared(wiped, from, cnt, x) ==> orig[x] == 0)
    && (forall x :: from + len <= x < from + total && !Cleared(wiped, from, cnt, x) ==> orig[x] == img0[x + 8 * cnt])
  }

  lemma RecordsKeptIff(orig: seq<byte>, img0: seq<byte>, size: nat, h: seq<byte>, e: nat, cnt: int, total: nat, from: nat)
    requires Shiftable(orig, size, |img0|, h, e, cnt) && AreaMoves(orig, size, h, e, total) && from == Start(h, MULTI)
    ensures CanRelocate(orig, img0, h, size, Start(h, e), cnt)
    ensures Kept(orig, Relocate(orig, img0, h, size, Start(h, e), cnt).img, from, from + 8 * cnt, total)
      <==> KeptCondition(orig, img0, from, cnt, Wiped(orig, h, cnt), orig[from + 2], total)
  {
    hide Relocate, CanRelocate, Shiftable, AreaMoves, Wiped, KeptCondition, Kept, AreasOk;
    AreaPlace(orig, size, |img0|, h, e, cnt, total, from);
    ShiftableCanRelocate(orig, img0, size, h, e, cnt);
    var img, wiped := Relocate(orig, img0, h, size, Start(h, e), cnt).img, Wiped(orig, h, cnt);
    if from + 8 * cnt + total <= |img0| {
      forall x | from + 8 * cnt <= x < from + 8 * cnt + total
        ensures img[x] == if wiped && x < from then 0 else MovedByte(orig, img0, from, from + 8 * cnt, x)
      {
        FinalByte(orig, img0, size, h, e, cnt, total, x);
      }
      KeptByBytes(orig, img0, img, from, cnt, total, wiped);
    } else {
      TooLong(orig, img0, img, from, cnt, wiped, total);
    }
  }

  lemma AreaPlace(orig: seq<byte>, size: nat, room: nat, h: seq<byte>, e: nat, cnt: int, total: nat, from: nat)
    requires Shiftable(orig, size, room, h, e, cnt) && AreaMoves(orig, size, h, e, total) && from == Start(h, MULTI)
    ensures from + 2 < |orig| && orig[from + 2] as int + 5 <= total && from + total <= |orig| && 0 <= from + 8 * cnt
    ensures |h| == 8 && Info(e)
  {
    NewPlace(orig, size, room, h, e, cnt, MULTI);
  }

  lemma TooLong(orig: seq<byte>, img0: seq<byte>, img: seq<byte>, from: nat, cnt: int, wiped: bool, total: nat)
    requires from + 2 < |orig| && from + total <= |orig| && |img| == |img0| && from + 8 * cnt + total > |img0|
    ensures !Kept(orig, img, from, from + 8 * cnt, total)
    ensures !KeptCondition(orig, img0, from, cnt, wiped, orig[from + 2], total)
  {
  }

  lemma KeptByBytes(orig: seq<byte>, img0: seq<byte>, img: seq<byte>, from: nat, cnt: int, total: nat, wiped: bool)
    requires from + 2 < |orig| && orig[from + 2] as int <= total && from + total <= |orig|
    requires |img| == |img0| && 0 <= from + 8 * cnt && from + 8 * cnt + total <= |img0|
    requires forall x :: from + 8 * cnt <= x < from + 8 * cnt + total ==>
      img[x] == if wiped && x < from then 0 else MovedByte(orig, img0, from, from + 8 * cnt, x)
    ensures Kept(orig, img, from, from + 8 * cnt, total) <==> KeptCondition(orig, img0, from, cnt, wiped, orig[from + 2], total)
  {
    var to, len := from + 8 * cnt, orig[from + 2] as int;
    forall x | from <= x < from + total
      ensures img[x + 8 * cnt] == if Cleared(wiped, from, cnt, x) then 0 else if x < from + len then orig[x] else img0[x + 8 * cnt]
    {
      assert to <= x + 8 * cnt < to + total;
    }
    hide MovedByte;
    if Kept(orig, img, from, to, total) {
      forall x | from <= x < from + total ensures img[x + 8 * cnt] == orig[x] {
        assert img[to..to + total][x - from] == orig[from..from + total][x - from];
      }
    }
    if KeptCondition(orig, img0, from, cnt, wiped, len, total) {
      var a, b := img[to..to + total], orig[from..from + total];
      forall i | 0 <= i < total ensures a[i] == b[i] {
        var x := from + i;
        assert img[x + 8 * cnt] == orig[x];
      }
    }
  }

  // ---- every content ----

  // A record list as the format asks for it: good headers, the last record and no other
  // flagged as the last.
  ghost predicate WellFormed(rs: seq<Multirecord.Record>) {
    && rs != [] && Multirecord.RecordsOk(rs)
    && (forall i :: 0 <= i < |rs| ==> ZeroSum(Multirecord.Header(rs[i])))
    && (forall i :: 0 <= i < |rs| ==> (Multirecord.EndOfList(rs[i].format) <==> i == |rs| - 1))
  }

  // The records can stand at the edit's multirecord offset: inside the FRU, apart from the
  // other areas, and what is moved of them fits the new buffer.
  ghost predicate RecordsFit(ed: Edit, rs: seq<Multirecord.Record>)
    requires EditOk(ed)
  {
    && WellFormed(rs)
    && Start(ed.h, MULTI) + |Multirecord.Encode(rs)| <= ed.size
    && Start(ed.h, MULTI) + 8 * Cnt(ed) + |rs[0].data| <= Room(ed)
    && AreaApart(ed.orig, ed.h, ed.e, |Multirecord.Encode(rs)|)
  }

  // The same edit of a FRU with these records.
  ghost function WithRecords(ed: Edit, rs: seq<Multirecord.Record>): Edit
    requires EditOk(ed) && RecordsFit(ed, rs)
  {
    ed.(orig := Splice(ed.orig, Start(ed.h, MULTI), Multirecord.Encode(rs)))
  }

  lemma FirstRecordFirst(rs: seq<Multirecord.Record>)
    requires WellFormed(rs)
    ensures var d := Multirecord.Encode(rs);
      && |d| >= |rs[0].data| + 5 && d[1] == rs[0].format && d[2] == |rs[0].data|
      && (d[1] >= 0x80 ==> |d| == |rs[0].data| + 5)
  {
    var d := Multirecord.Encode(rs);
    assert d == Multirecord.Header(rs[0]) + rs[0].data + Multirecord.Encode(rs[1..]);
    if |rs| == 1 {
      assert rs[1..] == [];
    }
  }

  // Bytes apart from the records are as they were.
  lemma SpliceApart(orig: seq<byte>, at: nat, t: seq<byte>, from: nat, to: nat)
    requires at + |t| <= |orig| && from <= to <= |orig| && (to <= at || at + |t| <= from)
    ensures Splice(orig, at, t)[from..to] == orig[from..to]
  {
  }

  lemma InfoUnchanged(ed: Edit, rs: seq<Multirecord.Record>, i: nat)
    requires EditOk(ed) && RecordsFit(ed, rs) && Present(ed.h, MULTI)
    requires Info(i) && Present(ed.h, i) && AreaInside(ed.orig, ed.h, ed.size, i)
    ensures var orig := WithRecords(ed, rs).orig;
      && AreaInside(orig, ed.h, ed.size, i) && Length(orig, ed.h, i) == Length(ed.orig, ed.h, i)
      && orig[Start(ed.h, i)..Start(ed.h, i) + Length(ed.orig, ed.h, i)] == ed.orig[Start(ed.h, i)..Start(ed.h, i) + Length(ed.orig, ed.h, i)]
  {
    hide EditOk, Splice;
    Basics(ed);
    var at, d := Start(ed.h, MULTI), Multirecord.Encode(rs);
    assert Start(ed.h, i) + Length(ed.orig, ed.h, i) <= at || at + |d| <= Start(ed.h, i);
    InfoAfterSplice(ed.orig, ed.h, ed.size, i, at, d);
  }

  lemma InfoAfterSplice(orig: seq<byte>, h: seq<byte>, size: nat, i: nat, at: nat, d: seq<byte>)
    requires |h| == 8 && i < 5 && AreaInside(orig, h, size, i) && at + |d| <= |orig|
    requires Start(h, i) + Length(orig, h, i) <= at || at + |d| <= Start(h, i)
    ensures var next, from, to := Splice(orig, at, d), Start(h, i), Start(h, i) + Length(orig, h, i);
      AreaInside(next, h, size, i) && Length(next, h, i) == Length(orig, h, i) && next[from..to] == orig[from..to]
  {
    hide Splice;
  }

  lemma WithRecordsOk(ed: Edit, rs: seq<Multirecord.Record>)
    requires EditOk(ed) && RecordsFit(ed, rs) && Present(ed.h, MULTI)
    ensures EditOk(WithRecords(ed, rs))
  {
    hide ResizeOk, Storable, EncodeSection, AreaApart, AreaInside, Splice;
    var ed' := WithRecords(ed, rs);
    InfoUnchanged(ed, rs, ed.e);
    SpliceApart(ed.orig, Start(ed.h, MULTI), Multirecord.Encode(rs), 0, 8);
    assert ed'.orig[..8] == ed.orig[..8];
    if Cnt(ed) != 0 {
      ResizeStillOk(ed, rs);
    }
  }

  lemma InfosUnchanged(ed: Edit, rs: seq<Multirecord.Record>)
    requires EditOk(ed) && RecordsFit(ed, rs) && Present(ed.h, MULTI) && Cnt(ed) != 0
    ensures SameInfo(ed, WithRecords(ed, rs).orig)
  {
    forall i | 0 <= i < 5 && Info(i) && Present(ed.h, i)
      ensures AreaInside(ed.orig, ed.h, ed.size, i) && AreaInside(WithRecords(ed, rs).orig, ed.h, ed.size, i)
      ensures Length(WithRecords(ed, rs).orig, ed.h, i) == Length(ed.orig, ed.h, i)
    {
      InfoUnchanged(ed, rs, i);
    }
  }

  // Where the records stand, and what their first bytes are.
  lemma RecordsPlace(ed: Edit, rs: seq<Multirecord.Record>)
    requires EditOk(ed) && RecordsFit(ed, rs) && Present(ed.h, MULTI)
    ensures var from, total := Start(ed.h, MULTI), |Multirecord.Encode(rs)|;
      && |ed.h| == 8 && Info(ed.e) && ed.f < |ed.sec.fields|
      && 8 <= from && from + total <= ed.size && |rs[0].data| + 5 <= total
      && WithRecords(ed, rs).orig[from + 2] as int == |rs[0].data|
  {
    FirstRecordFirst(rs);
    RecordByte(ed.orig, Start(ed.h, MULTI), Multirecord.Encode(rs), 2);
  }

  lemma ResizeStillOk(ed: Edit, rs: seq<Multirecord.Record>)
    requires EditOk(ed) && RecordsFit(ed, rs) && Present(ed.h, MULTI) && Cnt(ed) != 0
    ensures ResizeOk(WithRecords(ed, rs))
  {
    InfosUnchanged(ed, rs);
    RecordsPlace(ed, rs);
    assert ResizeOk(ed);
    hide EditOk, ResizeOk, WellFormed, SameInfo, AreaApart;
    ResizeCarries(ed, WithRecords(ed, rs).orig, |rs[0].data|, |Multirecord.Encode(rs)|);
  }

  lemma ResizeCarries(ed: Edit, orig: seq<byte>, len: nat, total: nat)
    requires |ed.h| == 8 && Info(ed.e) && ed.f < |ed.sec.fields| && ResizeOk(ed) && SameInfo(ed, orig)
    requires var from := Start(ed.h, MULTI);
      && len + 5 <= total && from + total <= ed.size <= |orig| && from + 8 * Cnt(ed) + len <= Room(ed) && orig[from + 2] as int == len
    requires AreaApart(ed.orig, ed.h, ed.e, total)
    ensures ResizeOk(ed.(orig := orig))
  {
    hide AreasOk, MultiFits, InternalFits, AreaApart, SameInfo;
    AreasStillOk(ed, orig);
    if Moves(ed.h, Ho(ed), MULTI) {
      MultiStillFits(ed, orig, len, total);
    }
    if Moves(ed.h, Ho(ed), INTERNAL) {
      InternalStillFits(ed, orig);
    }
  }

  // The info areas are the same in both images.
  ghost predicate SameInfo(ed: Edit, orig: seq<byte>)
    requires |ed.h| == 8
  {
    && |orig| == |ed.orig|
    && forall i :: 0 <= i < 5 && Info(i) && Present(ed.h, i) ==>
         && AreaInside(ed.orig, ed.h, ed.size, i) && AreaInside(orig, ed.h, ed.size, i)
         && Length(orig, ed.h, i) == Length(ed.orig, ed.h, i)
  }

  lemma MultiStillFits(ed: Edit, orig: seq<byte>, len: nat, total: nat)
    requires AreasOk(ed.orig, ed.h, ed.size) && AreasOk(orig, ed.h, ed.size) && SameInfo(ed, orig) && ed.e < 5 && ed.f < |ed.sec.fields|
    requires MultiFits(ed.orig, ed.size, Room(ed), ed.h, Cnt(ed))
    requires var from := Start(ed.h, MULTI);
      && len + 5 <= total && from + total <= ed.size && from + 8 * Cnt(ed) + len <= Room(ed) && orig[from + 2] as int == len
    requires AreaApart(ed.orig, ed.h, ed.e, total)
    ensures MultiFits(orig, ed.size, Room(ed), ed.h, Cnt(ed))
  {
  }

  lemma InternalStillFits(ed: Edit, orig: seq<byte>)
    requires AreasOk(ed.orig, ed.h, ed.size) && AreasOk(orig, ed.h, ed.size) && SameInfo(ed, orig) && ed.e < 5 && ed.f < |ed.sec.fields|
    requires InternalFits(ed.orig, ed.size, Room(ed), ed.h, Ho(ed), Cnt(ed))
    ensures InternalFits(orig, ed.size, Room(ed), ed.h, Ho(ed), Cnt(ed))
  {
  }

  lemma RecordByte(orig: seq<byte>, at: nat, t: seq<byte>, i: nat)
    requires at + |t| <= |orig| && i < |t|
    ensures Splice(orig, at, t)[at + i] == t[i]
  {
  }

  lemma AreasStillOk(ed: Edit, orig: seq<byte>)
    requires AreasOk(ed.orig, ed.h, ed.size) && SameInfo(ed, orig)
    ensures AreasOk(orig, ed.h, ed.size)
  {
    forall i, j | 0 <= i < 5 && 0 <= j < 5 && Info(i) && Info(j) && i != j && Present(ed.h, i) && Present(ed.h, j)
      ensures Apart(orig, ed.h, i, j)
    {
      assert Apart(ed.orig, ed.h, i, j);
    }
  }

  // ---- kept ----

  // A new buffer into which the old FRU was copied.
  ghost predicate IsCopy(ed: Edit, img0: seq<byte>)
    requires ed.f < |ed.sec.fields|
  {
    |img0| == Room(ed) && ed.size <= |img0| && ed.size <= |ed.orig| && img0[..ed.size] == ed.orig[..ed.size]
  }

  // The multirecord area of `total` bytes is in the final image, where the new header says.
  ghost predicate EditKeeps(ed: Edit, img0: seq<byte>, total: nat)
    requires EditOk(ed) && |img0| == Room(ed)
  {
    Kept(ed.orig, NewImage(ed, img0), Start(ed.h, MULTI), 8 * NewBlk(ed.h, Ho(ed), Cnt(ed), MULTI), total)
  }

  // Without a resize, or before the edited area, the area is kept.
  lemma AreaStays(ed: Edit, img0: seq<byte>, total: nat)
    requires EditOk(ed) && IsCopy(ed, img0) && Present(ed.h, MULTI)
    requires 0 < total && Start(ed.h, MULTI) + total <= ed.size && AreaApart(ed.orig, ed.h, ed.e, total)
    requires Cnt(ed) == 0 || !Moves(ed.h, Ho(ed), MULTI)
    ensures EditKeeps(ed, img0, total)
  {
    hide NewImage, NewHeader, OthersKept, TailErased, MovedImage, AreaApart, SectionAt, ResizeOk, Storable;
    StayPlace(ed, total);
    OthersAreKept(ed, img0);
    var from := Start(ed.h, MULTI);
    OutsideKept(ed, NewImage(ed, img0), NewHeader(ed, img0), from, from + total);
  }

  lemma StayPlace(ed: Edit, total: nat)
    requires EditOk(ed) && Present(ed.h, MULTI) && AreaApart(ed.orig, ed.h, ed.e, total) && 0 < total
    requires Cnt(ed) == 0 || !Moves(ed.h, Ho(ed), MULTI)
    ensures var from := Start(ed.h, MULTI);
      && (from + total <= Ho(ed) || (Cnt(ed) == 0 && Ho(ed) + SectionLength(ed) <= from))
      && 8 * NewBlk(ed.h, Ho(ed), Cnt(ed), MULTI) == from && 8 <= from && ed.size <= |ed.orig|
  {
    hide SectionAt, Storable;
  }

  lemma OutsideKept(ed: Edit, img: seq<byte>, h: seq<byte>, from: nat, to: nat)
    requires EditOk(ed) && |img| >= ed.size && OthersKept(ed, img, h) && 8 <= from < to <= ed.size
    requires to <= Ho(ed) || (Cnt(ed) == 0 && Ho(ed) + SectionLength(ed) <= from)
    ensures img[from..to] == ed.orig[from..to]
  {
    hide SectionAt, Storable, Stands, AreasOk, MultiFits, InternalFits;
    if Cnt(ed) == 0 {
      assert forall x :: from <= x < to ==> img[x] == ed.orig[x];
    } else {
      SubRange(img, ed.orig, 8, Ho(ed), from, to);
    }
  }

  lemma SubRange(a: seq<byte>, b: seq<byte>, lo: nat, hi: nat, from: nat, to: nat)
    requires lo <= from <= to <= hi <= |a| && hi <= |b| && a[lo..hi] == b[lo..hi]
    ensures a[from..to] == b[from..to]
  {
    assert forall x :: from <= x < to ==> a[x] == a[lo..hi][x - lo] == b[lo..hi][x - lo] == b[x];
  }

  // ---- lost ----

  // A single record without data; its type is not the byte that stands where it should go.
  function LoneRecord(there: byte): (rs: seq<Multirecord.Record>)
    ensures |rs| == 1 && rs[0].data == [] && rs[0].format == 0x80 && rs[0].kind != there
  {
    [Multirecord.WithSums(if there == 0 then 1 else 0, 0x80, [])]
  }

  lemma LoneIsWellFormed(there: byte)
    ensures WellFormed(LoneRecord(there))
    ensures var d := Multirecord.Encode(LoneRecord(there)); |d| == 5 && d[0] != there
  {
    var rs := LoneRecord(there);
    Multirecord.WithSumsIsValid(rs[0].kind, 0x80, []);
    assert rs[1..] == [];
    assert Multirecord.Encode(rs) == Multirecord.Header(rs[0]) + rs[0].data + Multirecord.Encode(rs[1..]);
  }

  // A moved area in the final image: the rewrite of the section does not touch it.
  lemma MovedAreaKeptIff(ed: Edit, img0: seq<byte>, total: nat, from: nat, to: nat, wiped: bool)
    requires EditOk(ed) && IsCopy(ed, img0) && Cnt(ed) != 0
    requires AreasOk(ed.orig, ed.h, ed.size) && AreaMoves(ed.orig, ed.size, ed.h, ed.e, total)
    requires from == Start(ed.h, MULTI) && to == from + 8 * Cnt(ed) && wiped == Wiped(ed.orig, ed.h, Cnt(ed))
    ensures from + 2 < |ed.orig| && from + total <= |ed.orig|
    ensures EditKeeps(ed, img0, total) <==> KeptCondition(ed.orig, img0, from, Cnt(ed), wiped, ed.orig[from + 2], total)
  {
    hide NewImage, MovedImage, Relocate, CanRelocate, Shiftable, AreaMoves, AreasOk, KeptCondition, Wiped, Kept, EditKeeps, EditOk;
    Basics(ed);
    MovedPlace(ed, total);
    KeepsIs(ed, img0, total, from, to);
    RelocatedIs(ed, img0);
    RecordsKeptIff(ed.orig, img0, ed.size, ed.h, ed.e, Cnt(ed), total, from);
  }

  lemma KeepsIs(ed: Edit, img0: seq<byte>, total: nat, from: nat, to: nat)
    requires EditOk(ed) && |img0| == Room(ed) && from == Start(ed.h, MULTI) && to == from + 8 * Cnt(ed)
    requires 8 * NewBlk(ed.h, Ho(ed), Cnt(ed), MULTI) == to && Ho(ed) + SectionLength(ed) + 8 * Cnt(ed) <= to
    ensures EditKeeps(ed, img0, total) <==> Kept(ed.orig, MovedImage(ed, img0).img, from, to, total)
  {
    hide NewImage, MovedImage, SectionAt, ResizeOk, Storable;
    KeptAfterRewrite(ed, img0, to, total);
    KeptInEither(ed.orig, MovedImage(ed, img0).img, NewImage(ed, img0), from, to, total);
  }

  lemma KeptAfterRewrite(ed: Edit, img0: seq<byte>, to: nat, total: nat)
    requires EditOk(ed) && |img0| == Room(ed) && Ho(ed) + SectionLength(ed) + 8 * Cnt(ed) <= to
    ensures to + total <= |img0| ==> NewImage(ed, img0)[to..to + total] == MovedImage(ed, img0).img[to..to + total]
  {
    hide NewImage, MovedImage, SectionAt, ResizeOk, Storable;
    if to + total <= |img0| {
      forall x | to <= x < to + total ensures NewImage(ed, img0)[x] == MovedImage(ed, img0).img[x] {
        OutsideSection(ed, img0, x);
      }
    }
  }

  lemma KeptInEither(orig: seq<byte>, a: seq<byte>, b: seq<byte>, from: nat, to: nat, total: nat)
    requires |a| == |b| && (to + total <= |a| ==> a[to..to + total] == b[to..to + total])
    ensures Kept(orig, a, from, to, total) <==> Kept(orig, b, from, to, total)
  {
  }

  lemma MovedPlace(ed: Edit, total: nat)
    requires EditOk(ed) && Cnt(ed) != 0 && AreasOk(ed.orig, ed.h, ed.size) && AreaMoves(ed.orig, ed.size, ed.h, ed.e, total)
    ensures Shiftable(ed.orig, ed.size, Room(ed), ed.h, ed.e, Cnt(ed))
    ensures var from := Start(ed.h, MULTI);
      && 8 * NewBlk(ed.h, Ho(ed), Cnt(ed), MULTI) == from + 8 * Cnt(ed)
      && 0 <= Ho(ed) + SectionLength(ed) + 8 * Cnt(ed) <= from + 8 * Cnt(ed)
      && from + 2 < |ed.orig| && ed.orig[from + 2] as int + 5 <= total && from + total <= |ed.orig|
      && ed.size <= Room(ed)
  {
    EditIsShiftable(ed);
    NewPlace(ed.orig, ed.size, Room(ed), ed.h, ed.e, Cnt(ed), MULTI);
    hide SectionAt, Storable, Shiftable, PartOk;
  }

  // ---- every content ----

  // The same edit, of a FRU with the same header, size and section but any other bytes.
  ghost predicate SameEdit(ed: Edit, other: Edit) {
    other == ed.(orig := other.orig) && |other.orig| == |ed.orig| && EditOk(other)
  }

  // The FRU holds these records.
  ghost predicate HoldsRecords(ed: Edit, rs: seq<Multirecord.Record>)
    requires EditOk(ed)
  {
    && WellFormed(rs)
    && var from, d := Start(ed.h, MULTI), Multirecord.Encode(rs);
      && from + |d| <= ed.size && ed.orig[from..from + |d|] == d && AreaApart(ed.orig, ed.h, ed.e, |d|)
  }

  // Whatever the FRU and its records, they are kept.
  ghost predicate AlwaysKept(ed: Edit) {
    forall other: Edit, rs: seq<Multirecord.Record>, img0: seq<byte> ::
      SameEdit(ed, other) && HoldsRecords(other, rs) && IsCopy(other, img0) ==> EditKeeps(other, img0, |Multirecord.Encode(rs)|)
  }

  // The records are kept for every content if and only if the edited area keeps its size
  // or lies behind them.
  lemma AlwaysKeptIff(ed: Edit)
    requires EditOk(ed) && Present(ed.h, MULTI)
    ensures AlwaysKept(ed) <==> Cnt(ed) == 0 || !Moves(ed.h, Ho(ed), MULTI)
  {
    if Cnt(ed) == 0 || !Moves(ed.h, Ho(ed), MULTI) {
      forall other: Edit, rs: seq<Multirecord.Record>, img0: seq<byte> |
        SameEdit(ed, other) && HoldsRecords(other, rs) && IsCopy(other, img0)
        ensures EditKeeps(other, img0, |Multirecord.Encode(rs)|)
      {
        hide EditOk, EditKeeps, AreaApart, WellFormed;
        NotEmpty(rs);
        AreaStays(other, img0, |Multirecord.Encode(rs)|);
      }
    } else {
      var other, rs, img0 := LostRecord(ed);
      assert SameEdit(ed, other) && HoldsRecords(other, rs) && IsCopy(other, img0);
    }
  }

  lemma NotEmpty(rs: seq<Multirecord.Record>)
    requires WellFormed(rs)
    ensures |Multirecord.Encode(rs)| > 0
  {
    FirstRecordFirst(rs);
  }

  // A content that is not kept: a single record without data, which is not moved at all.
  lemma LostRecord(ed: Edit) returns (other: Edit, rs: seq<Multirecord.Record>, img0: seq<byte>)
    requires EditOk(ed) && Cnt(ed) != 0 && Moves(ed.h, Ho(ed), MULTI)
    ensures SameEdit(ed, other) && HoldsRecords(other, rs) && IsCopy(other, img0)
    ensures !EditKeeps(other, img0, |Multirecord.Encode(rs)|)
  {
    hide SectionAt, Storable, Splice, NewImage;
    LonePlace(ed);
    var from, to := Start(ed.h, MULTI), Start(ed.h, MULTI) + 8 * Cnt(ed);
    var before := ed.orig[..ed.size] + Zeros(Room(ed) - ed.size);
    var there: byte := if to < |before| then before[to] else 0;
    rs := LoneRecord(there);
    LoneIsWellFormed(there);
    LoneFits(ed, rs);
    WithRecordsOk(ed, rs);
    other := WithRecords(ed, rs);
    img0 := other.orig[..ed.size] + Zeros(Room(ed) - ed.size);
    LoneHeld(ed, rs);
    LoneIsNotThere(ed, rs, other, img0, there);
  }

  lemma LonePlace(ed: Edit)
    requires EditOk(ed) && Cnt(ed) != 0 && Moves(ed.h, Ho(ed), MULTI)
    ensures var from := Start(ed.h, MULTI);
      && ed.size <= Room(ed) && 8 <= from && from + 5 <= ed.size && 0 <= from + 8 * Cnt(ed) <= Room(ed)
    ensures AreasOk(ed.orig, ed.h, ed.size) && MultiFits(ed.orig, ed.size, Room(ed), ed.h, Cnt(ed))
  {
    EditIsShiftable(ed);
    NewPlace(ed.orig, ed.size, Room(ed), ed.h, ed.e, Cnt(ed), MULTI);
  }

  lemma LoneFits(ed: Edit, rs: seq<Multirecord.Record>)
    requires EditOk(ed) && Cnt(ed) != 0 && Moves(ed.h, Ho(ed), MULTI) && WellFormed(rs) && |Multirecord.Encode(rs)| == 5 && rs[0].data == []
    ensures RecordsFit(ed, rs)
  {
    LonePlace(ed);
    hide SectionAt, Storable, WellFormed;
  }

  lemma LoneHeld(ed: Edit, rs: seq<Multirecord.Record>)
    requires EditOk(ed) && Cnt(ed) != 0 && Moves(ed.h, Ho(ed), MULTI) && RecordsFit(ed, rs) && EditOk(WithRecords(ed, rs))
    requires rs[0].data == [] && |Multirecord.Encode(rs)| == 5 && rs[0].format == 0x80
    ensures var other := WithRecords(ed, rs);
      && SameEdit(ed, other) && HoldsRecords(other, rs)
      && AreasOk(other.orig, ed.h, ed.size) && AreaMoves(other.orig, ed.size, ed.h, ed.e, 5)
  {
    hide EditOk, WellFormed, MultiFits, AreaApart, Splice, AreasOk, SameInfo;
    Basics(ed);
    Basics(WithRecords(ed, rs));
    var other, from, d := WithRecords(ed, rs), Start(ed.h, MULTI), Multirecord.Encode(rs);
    LonePlace(ed);
    LonePlace(other);
    InfosUnchanged(ed, rs);
    FirstRecordFirst(rs);
    FirstBytes(ed, rs, other.orig, from, d);
    SplicedPart(ed.orig, from, d);
    StillApart(ed, other.orig, 5);
    NotInternal(other);
  }

  lemma NotInternal(ed: Edit)
    requires EditOk(ed) && Cnt(ed) != 0 && Moves(ed.h, Ho(ed), MULTI)
    ensures Blk(ed.h, MULTI) != Blk(ed.h, INTERNAL)
  {
  }

  lemma StillApart(ed: Edit, orig: seq<byte>, total: nat)
    requires |ed.h| == 8 && ed.e < 5 && SameInfo(ed, orig) && AreaApart(ed.orig, ed.h, ed.e, total)
    ensures AreaApart(orig, ed.h, ed.e, total)
  {
  }

  lemma LoneIsNotThere(ed: Edit, rs: seq<Multirecord.Record>, other: Edit, img0: seq<byte>, there: byte)
    requires EditOk(ed) && Cnt(ed) != 0 && Moves(ed.h, Ho(ed), MULTI) && RecordsFit(ed, rs)
    requires other == WithRecords(ed, rs) && EditOk(other) && AreasOk(other.orig, ed.h, ed.size)
    requires rs[0].data == [] && |Multirecord.Encode(rs)| == 5 && Multirecord.Encode(rs)[0] != there && Multirecord.Encode(rs)[1] >= 0x80
    requires AreaMoves(other.orig, ed.size, ed.h, ed.e, 5)
    requires ed.size <= Room(ed) && img0 == other.orig[..ed.size] + Zeros(Room(ed) - ed.size)
    requires var to := Start(ed.h, MULTI) + 8 * Cnt(ed);
      0 <= to < Room(ed) ==> there == (ed.orig[..ed.size] + Zeros(Room(ed) - ed.size))[to]
    ensures IsCopy(other, img0) && !EditKeeps(other, img0, 5)
  {
    hide EditOk, NewImage, AreaMoves, RecordsFit, WellFormed, EditKeeps, AreasOk, KeptCondition, Splice, Wiped;
    Basics(ed);
    MovedPlace(other, 5);
    var from, to, d := Start(ed.h, MULTI), Start(ed.h, MULTI) + 8 * Cnt(ed), Multirecord.Encode(rs);
    assert img0[..ed.size] == other.orig[..ed.size];
    FirstBytes(ed, rs, other.orig, from, d);
    NotWiped(other.orig, ed.h, Cnt(ed));
    MovedAreaKeptIff(other, img0, 5, from, to, false);
    Elsewhere(ed, other.orig, from, d, to, Zeros(Room(ed) - ed.size));
    NotThere(other.orig, img0, from, Cnt(ed), other.orig[from + 2]);
  }

  lemma NotWiped(orig: seq<byte>, h: seq<byte>, cnt: int)
    requires |h| == 8 && Start(h, MULTI) + 1 < |orig| && orig[Start(h, MULTI) + 1] >= 0x80
    ensures !Wiped(orig, h, cnt)
  {
  }

  lemma FirstBytes(ed: Edit, rs: seq<Multirecord.Record>, orig: seq<byte>, from: nat, d: seq<byte>)
    requires EditOk(ed) && RecordsFit(ed, rs) && from == Start(ed.h, MULTI) && d == Multirecord.Encode(rs) && |d| == 5
    requires orig == WithRecords(ed, rs).orig
    ensures from + 5 <= ed.size <= |ed.orig| == |orig| && orig == Splice(ed.orig, from, d)
    ensures orig[from] == d[0] && orig[from + 1] == d[1] && orig[from + 2] == d[2] == |rs[0].data|
  {
    FirstRecordFirst(rs);
    RecordByte(ed.orig, from, d, 0);
    RecordByte(ed.orig, from, d, 1);
    RecordByte(ed.orig, from, d, 2);
  }

  lemma Elsewhere(ed: Edit, orig: seq<byte>, from: nat, d: seq<byte>, to: nat, rest: seq<byte>)
    requires |d| == 5 && from + 5 <= ed.size <= |ed.orig| && orig == Splice(ed.orig, from, d) && (to < from || from + 5 <= to)
    ensures to < ed.size + |rest| ==> (orig[..ed.size] + rest)[to] == (ed.orig[..ed.size] + rest)[to]
  {
  }

  lemma NotThere(orig: seq<byte>, img0: seq<byte>, from: nat, cnt: int, len: nat)
    requires from + 5 <= |orig| && len == 0
    requires 0 <= from + 8 * cnt < |img0| ==> orig[from] != img0[from + 8 * cnt]
    ensures !KeptCondition(orig, img0, from, cnt, false, len, 5)
  {
  }

  // ---- a FRU whose records are cleared ----

  // 48 bytes: a chassis area of two blocks with the field "AAAAAAAAAA", and behind it two
  // records, the first with eleven bytes of data, the second without data and the last.
  const Head: seq<byte> := [1, 0, 1, 0, 0, 3, 0, 251]
  const Chassis: seq<byte> := [1, 2, 0x17, 0xca, 65, 65, 65, 65, 65, 65, 65, 65, 65, 65, FRU_END_OF_FIELDS, 209]
  const TwoRecords: seq<Multirecord.Record> := [
    Multirecord.Record(0xf3, 2, [0, 0, 0, 0x7e, 0x82, 0, 0, 0, 0, 0, 0], 0, 0),
    Multirecord.Record(0x7e, 0x82, [], 0, 0)]
  const RecordBytes: seq<byte> := [0xf3, 2, 11, 0, 0, 0, 0, 0, 0x7e, 0x82, 0, 0, 0, 0, 0, 0, 0x7e, 0x82, 0, 0, 0]

  // "AB" for the ten letters makes the chassis area one block shorter.
  function ClearingEdit(): Edit {
    Edit(Head + Chassis + RecordBytes + Zeros(3 + OVERREAD), 48, Head, 1,
         Section([1, 2, 0x17], [TextField([65, 65, 65, 65, 65, 65, 65, 65, 65, 65])], 0), 0, [65, 66])
  }

  // The whole area except its first eleven bytes already stands where it should go, and it
  // is lost nevertheless: its start is cleared as the tail of the shrunken FRU.
  lemma ClearingLosesRecords()
    ensures var ed := ClearingEdit(); EditOk(ed) && Cnt(ed) == -1 && HoldsRecords(ed, TwoRecords)
    ensures var ed, img0 := ClearingEdit(), ClearingEdit().orig[..48];
      && IsCopy(ed, img0) && |Multirecord.Encode(TwoRecords)| == 21
      && img0[16 + 11..16 + 21] == ed.orig[24 + 11..24 + 21]
      && !EditKeeps(ed, img0, 21)
  {
    ClearingEditOk();
    ClearingRecords();
    var ed, img0 := ClearingEdit(), ClearingEdit().orig[..48];
    ClearingBytes();
    ClearingMoves();
    hide EditOk, HoldsRecords, EditKeeps, ClearingEdit;
    MovedAreaKeptIff(ed, img0, 21, 24, 16, true);
    assert Cleared(true, 24, -1, 24);
  }

  lemma ClearingBytes()
    ensures var ed := ClearingEdit();
      && |ed.orig| == 54 && ed.h == Head && ed.size == 48 && ed.e == 1 && ed.f == 0 && |ed.sec.fields| == 1
      && ed.s == [65, 66] && |ed.sec.fields[0].payload| == 10 && ed.sec.pad == 0 && |ed.sec.prefix| == 3
      && ed.sec.fields[0].typecode == 3 && 0 !in ed.sec.fields[0].payload
      && ed.orig[..8] == Head && ed.orig[8..24] == Chassis && ed.orig[24..45] == RecordBytes
      && ed.orig[9] == 2 && ed.orig[24] == 0xf3 && ed.orig[25] == 2 && ed.orig[26] == 11
      && ed.orig[..48][27..37] == ed.orig[35..45]
  {
    var o := ClearingEdit().orig;
    assert o[8..24] == Chassis && o[24..45] == RecordBytes;
    assert RecordBytes[3..13] == RecordBytes[11..21];
    assert o[..48][27..37] == o[27..37] == o[24..45][3..13];
    assert o[35..45] == o[24..45][11..21];
  }

  lemma ClearingSection()
    ensures SectionAt(ClearingEdit().orig, 8, 16, ClearingEdit().sec)
  {
    ClearingBytes();
    var sec, body := ClearingEdit().sec, Chassis[..15];
    assert sec.fields[1..] == [] && EncodeFields([]) == [];
    assert EncodeField(sec.fields[0]) == [0xca] + sec.fields[0].payload;
    assert EncodeFields(sec.fields) == [0xca] + sec.fields[0].payload;
    ClearingBody(sec.prefix, sec.fields[0].payload);
    assert Zeros(0) == [];
    assert Body(sec) == body;
    ChassisSum();
    assert Chassis == body + [209];
  }

  lemma ClearingBody(prefix: seq<byte>, payload: seq<byte>)
    requires prefix == Chassis[..3] && payload == Chassis[4..14]
    ensures prefix + ([0xca] + payload) + [FRU_END_OF_FIELDS] == Chassis[..15]
  {
    var c, all := Chassis[..15], prefix + ([0xca] + payload) + [FRU_END_OF_FIELDS];
    assert c[..3] == prefix && c[3] == 0xca && c[4..14] == payload && c[14] == FRU_END_OF_FIELDS;
    assert all[..3] == prefix && all[3] == 0xca && all[4..14] == payload && all[14] == FRU_END_OF_FIELDS;
    forall x | 0 <= x < 15 ensures c[x] == all[x] {
      if x < 3 {
        assert c[x] == c[..3][x] && all[x] == all[..3][x];
      } else if 4 <= x < 14 {
        assert c[x] == c[4..14][x - 4] && all[x] == all[4..14][x - 4];
      }
    }
  }

  lemma ChassisSum()
    ensures Complement(Chassis[..15]) == 209
  {
    hide Sum;
    var a, b, c := Chassis[..7], Chassis[7..14], Chassis[14..15];
    assert Chassis[..15] == a + b + c;
    SumAppend(a + b, c);
    SumAppend(a, b);
    SumOfSeven(a);
    SumOfSeven(b);
    SumFrom(c, 0);
    assert c[0..] == c && c[1..] == [];
    SumNothing();
  }

  lemma ClearingEditOk()
    ensures var ed := ClearingEdit(); EditOk(ed) && Cnt(ed) == -1 && AreasOk(ed.orig, ed.h, 48) && Room(ed) == 48
  {
    ClearingBytes();
    ClearingSection();
    hide SectionAt, ClearingEdit;
    var ed := ClearingEdit();
    assert Present(ed.h, 1) && !Present(ed.h, 2) && !Present(ed.h, 3);
    assert AreaInside(ed.orig, ed.h, 48, 1);
    assert AreasOk(ed.orig, ed.h, 48);
  }

  lemma ClearingMoves()
    ensures var ed := ClearingEdit();
      && AreasOk(ed.orig, ed.h, ed.size) && AreaMoves(ed.orig, ed.size, ed.h, ed.e, 21) && Wiped(ed.orig, ed.h, -1)
      && Start(ed.h, MULTI) == 24
  {
    ClearingEditOk();
    ClearingBytes();
    hide ClearingEdit, EditOk, AreasOk;
    var ed := ClearingEdit();
    assert Present(ed.h, 1) && !Present(ed.h, 2) && !Present(ed.h, 3) && !Present(ed.h, 0);
  }

  lemma ClearingRecords()
    ensures EditOk(ClearingEdit()) && HoldsRecords(ClearingEdit(), TwoRecords) && Multirecord.Encode(TwoRecords) == RecordBytes
  {
    ClearingEditOk();
    ClearingBytes();
    ClearingMoves();
    RecordsEncoded();
    hide ClearingEdit, EditOk, AreasOk;
  }

  lemma RecordsEncoded()
    ensures WellFormed(TwoRecords) && Multirecord.Encode(TwoRecords) == RecordBytes
  {
    var a, b := TwoRecords[0], TwoRecords[1];
    assert TwoRecords[1..] == [b] && [b][1..] == [];
    assert Multirecord.Encode([b]) == Multirecord.Header(b) + b.data + Multirecord.Encode([]);
    assert Multirecord.Encode(TwoRecords) == Multirecord.Header(a) + a.data + Multirecord.Encode([b]);
    SumOfFive(Multirecord.Header(a));
    SumOfFive(Multirecord.Header(b));
  }

  lemma SumOfFive(s: seq<byte>)
    requires |s| == 5
    ensures Sum(s) == s[0] as int + s[1] as int + s[2] as int + s[3] as int + s[4] as int
  {
    hide Sum;
    SumFrom(s, 0);
    SumFrom(s, 1);
    SumFrom(s, 2);
    SumFrom(s, 3);
    SumFrom(s, 4);
    assert s[0..] == s && s[5..] == [];
    SumNothing();
  }
}
