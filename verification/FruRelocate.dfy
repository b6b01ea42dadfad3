// What the relocation of FruMove achieves.
module FruRelocate {
  import opened Bytes
  import opened FruMove

  function NewBlk(h: seq<byte>, ho: nat, cnt: int, i: nat): int
    requires |h| == 8 && i < 5
  {
    if Moves(h, ho, i) then Blk(h, i) + cnt else Blk(h, i)
  }

  // Area i stands, byte for byte, at its new place in the image.
  ghost predicate Stands(orig: seq<byte>, img: seq<byte>, h: seq<byte>, ho: nat, cnt: int, i: nat)
    requires |h| == 8 && i < 5 && Start(h, i) + 1 < |orig|
  {
    var from, len, to := Start(h, i), Length(orig, h, i), 8 * NewBlk(h, ho, cnt, i);
    && from + len <= |orig| && 0 <= to && to + len <= |img|
    && img[to..to + len] == orig[from..from + len]
  }

  // ---- what the editor needs ----

  // The first record of a multirecord area lies inside the FRU and apart from the info
  // areas, and what is moved of it fits the new image.
  ghost predicate MultiFits(orig: seq<byte>, size: nat, room: nat, h: seq<byte>, cnt: int)
    requires AreasOk(orig, h, size)
  {
    var from := Start(h, MULTI);
    && from + 2 < size && from + orig[from + 2] as int + 5 <= size
    && from + 8 * cnt + orig[from + 2] as int <= room
    && Blk(h, MULTI) != Blk(h, INTERNAL)
    && forall i :: 0 <= i < 5 && Info(i) && Present(h, i) ==>
         Start(h, i) + Length(orig, h, i) <= from || from + orig[from + 2] as int + 5 <= Start(h, i)
  }

  // What is moved of an internal use area can be read and written, and the info areas
  // before it end before it.
  ghost predicate InternalFits(orig: seq<byte>, size: nat, room: nat, h: seq<byte>, ho: nat, cnt: int)
    requires AreasOk(orig, h, size)
  {
    && CanMoveInternal(orig, room, h, size, ho, cnt)
    && forall i :: 0 <= i < 5 && Info(i) && Present(h, i) && Blk(h, i) < Blk(h, INTERNAL) ==>
         Start(h, i) + Length(orig, h, i) <= Start(h, INTERNAL)
  }

  // Section e can change by cnt blocks: there is room for every shifted area, and shifted
  // offsets still fit a byte. The internal use and the multirecord area may lie anywhere.
  ghost predicate Shiftable(orig: seq<byte>, size: nat, room: nat, h: seq<byte>, e: nat, cnt: int) {
    && AreasOk(orig, h, size) && Info(e) && Present(h, e)
    && size <= room
    && Start(h, e) + Length(orig, h, e) + 8 * cnt > Start(h, e)
    && (forall i :: 0 <= i < 5 && Info(i) && Present(h, i) && Start(h, i) >= Start(h, e) ==>
          Start(h, i) + Length(orig, h, i) + 8 * cnt <= room)
    && (forall i :: 0 <= i < 5 && Moves(h, Start(h, e), i) ==> Blk(h, i) + cnt < 0x100)
    && (Moves(h, Start(h, e), MULTI) ==> MultiFits(orig, size, room, h, cnt))
    && (Moves(h, Start(h, e), INTERNAL) ==> InternalFits(orig, size, room, h, Start(h, e), cnt))
  }

  // ---- the loop ----

  // The bytes of area i that the loop moves.
  function Part(orig: seq<byte>, h: seq<byte>, i: nat): nat
    requires |h| == 8 && i < 5 && Start(h, i) + 2 < |orig|
  {
    MovedLength(orig, Blk(h, i), i == MULTI)
  }

  // Where they go.
  predicate InPlace(orig: seq<byte>, h: seq<byte>, cnt: int, i: nat, x: nat)
    requires |h| == 8 && i < 5 && Start(h, i) + 2 < |orig|
  {
    Start(h, i) + 8 * cnt <= x < Start(h, i) + 8 * cnt + Part(orig, h, i)
  }

  ghost predicate PartOk(orig: seq<byte>, room: nat, h: seq<byte>, ho: nat, cnt: int, limit: nat, i: nat)
    requires |h| == 8 && i < 5
  {
    && Seen(h, i) && (IsMulti(h, i) <==> i == MULTI)
    && 0 < Blk(h, i) + cnt < 0x100 && limit <= Start(h, i) + 8 * cnt
    && Start(h, i) + 2 < |orig| && Start(h, i) + Part(orig, h, i) <= |orig|
    && Start(h, i) + 8 * cnt + Part(orig, h, i) <= room
  }

  ghost predicate PartsApart(orig: seq<byte>, h: seq<byte>, i: nat, j: nat)
    requires |h| == 8 && i < 5 && j < 5 && Start(h, i) + 2 < |orig| && Start(h, j) + 2 < |orig|
  {
    Start(h, i) + Part(orig, h, i) <= Start(h, j) || Start(h, j) + Part(orig, h, j) <= Start(h, i)
  }

  // Every area the loop moves can be moved, behind limit, and they do not overlap.
  ghost predicate LoopOk(orig: seq<byte>, room: nat, h: seq<byte>, ho: nat, cnt: int, limit: nat) {
    && CanMoveAll(orig, room, h, ho, cnt) && limit <= room
    && (forall i :: 0 < i < 5 && Moves(h, ho, i) ==> PartOk(orig, room, h, ho, cnt, limit, i))
    && (forall i, j :: 0 < i < j < 5 && Moves(h, ho, i) && Moves(h, ho, j) ==> PartsApart(orig, h, i, j))
  }

  // The moved part of area i is in its new place.
  ghost predicate Landed(orig: seq<byte>, img: seq<byte>, h: seq<byte>, cnt: int, i: nat)
    requires |h| == 8 && i < 5 && Start(h, i) + 2 < |orig|
  {
    var from, n, to := Start(h, i), Part(orig, h, i), Start(h, i) + 8 * cnt;
    from + n <= |orig| && 0 <= to && to + n <= |img| && img[to..to + n] == orig[from..from + n]
  }

  // Byte x is in no place of the first k areas.
  ghost predicate Free(orig: seq<byte>, h: seq<byte>, ho: nat, cnt: int, k: nat, x: nat)
    requires |h| == 8 && k <= 5
  {
    forall i :: 0 < i < k && Moves(h, ho, i) && Start(h, i) + 2 < |orig| ==> !InPlace(orig, h, cnt, i, x)
  }

  ghost predicate HeaderOk(h: seq<byte>, ho: nat, cnt: int, r: seq<byte>, k: nat)
    requires |h| == 8 && k <= 5
  {
    && |r| == 8 && r[0] == h[0] && r[6] == h[6]
    && (forall i :: 0 < i < k ==> Blk(r, i) as int == NewBlk(h, ho, cnt, i))
    && (forall i :: 0 <= i < 5 && !(0 < i < k) ==> Blk(r, i) == Blk(h, i))
  }

  // After k areas: the moved parts are in their places, all other bytes are as before,
  // and the header has the new offsets.
  ghost predicate LoopDone(orig: seq<byte>, img0: seq<byte>, h: seq<byte>, ho: nat, cnt: int, m: Moved, k: nat)
    requires |h| == 8 && k <= 5
  {
    && |m.img| == |img0| && HeaderOk(h, ho, cnt, m.h, k)
    && (forall i :: 0 < i < k && Moves(h, ho, i) ==> Start(h, i) + 2 < |orig| && Landed(orig, m.img, h, cnt, i))
    && (forall x :: 0 <= x < |img0| && Free(orig, h, ho, cnt, k, x) ==> m.img[x] == img0[x])
  }

  // What one pass does to the image and the header.
  lemma PassIs(orig: seq<byte>, h: seq<byte>, ho: nat, cnt: int, limit: nat, m: Moved, k: nat)
    requires LoopOk(orig, |m.img|, h, ho, cnt, limit) && k < 5 && HeaderOk(h, ho, cnt, m.h, k)
    ensures Seen(m.h, k) == Seen(h, k) && Blk(m.h, k) == Blk(h, k) && IsMulti(m.h, k) == IsMulti(h, k)
    ensures var r := MoveArea(orig, ho, cnt, m, k);
      if k > 0 && Moves(h, ho, k) then
        && PartOk(orig, |m.img|, h, ho, cnt, limit, k)
        && r.img == Splice(m.img, Start(h, k) + 8 * cnt, orig[Start(h, k)..Start(h, k) + Part(orig, h, k)])
        && r.h == m.h[1 + k := Blk(h, k) + cnt]
      else r.img == m.img && r.h == m.h
  {
    hide Splice, PartsApart;
    assert Blk(m.h, INTERNAL) == Blk(h, INTERNAL) && Blk(m.h, k) == Blk(h, k) && Blk(m.h, MULTI) == Blk(h, MULTI);
  }

  lemma PassDone(orig: seq<byte>, img0: seq<byte>, h: seq<byte>, ho: nat, cnt: int, limit: nat, m: Moved, k: nat)
    requires LoopOk(orig, |img0|, h, ho, cnt, limit) && k < 5 && LoopDone(orig, img0, h, ho, cnt, m, k)
    requires Seen(m.h, k) ==> CanMove(orig, |m.img|, Blk(m.h, k), IsMulti(m.h, k), ho, cnt)
    ensures LoopDone(orig, img0, h, ho, cnt, MoveArea(orig, ho, cnt, m, k), k + 1)
  {
    PassIs(orig, h, ho, cnt, limit, m, k);
    var r := MoveArea(orig, ho, cnt, m, k);
    if k > 0 && Moves(h, ho, k) {
      forall i | 0 < i < k && Moves(h, ho, i) ensures Start(h, i) + 2 < |orig| && PartsApart(orig, h, i, k) {
        assert PartOk(orig, |img0|, h, ho, cnt, limit, i);
      }
      hide MoveArea, Splice, LoopDone, LoopOk, PartsApart, CanMove;
      PassMoved(orig, img0, h, ho, cnt, m, r, k);
    } else {
      hide MoveArea, LoopDone, LoopOk, CanMove;
      PassSkipped(orig, img0, h, ho, cnt, m, r, k);
    }
  }

  lemma PassMoved(orig: seq<byte>, img0: seq<byte>, h: seq<byte>, ho: nat, cnt: int, m: Moved, r: Moved, k: nat)
    requires |h| == 8 && 0 < k < 5 && Moves(h, ho, k) && LoopDone(orig, img0, h, ho, cnt, m, k)
    requires Start(h, k) + 2 < |orig| && Start(h, k) + Part(orig, h, k) <= |orig|
    requires 0 < Blk(h, k) + cnt < 0x100 && Start(h, k) + 8 * cnt + Part(orig, h, k) <= |img0|
    requires forall i :: 0 < i < k && Moves(h, ho, i) ==> Start(h, i) + 2 < |orig| && PartsApart(orig, h, i, k)
    requires r.img == Splice(m.img, Start(h, k) + 8 * cnt, orig[Start(h, k)..Start(h, k) + Part(orig, h, k)])
    requires r.h == m.h[1 + k := Blk(h, k) + cnt]
    ensures LoopDone(orig, img0, h, ho, cnt, r, k + 1)
  {
    hide Splice, Landed, Free, PartsApart;
    PassLanded(orig, m.img, h, ho, cnt, k);
    PassFree(orig, img0, m.img, h, ho, cnt, k);
  }

  lemma PassSkipped(orig: seq<byte>, img0: seq<byte>, h: seq<byte>, ho: nat, cnt: int, m: Moved, r: Moved, k: nat)
    requires |h| == 8 && k < 5 && !(k > 0 && Moves(h, ho, k)) && LoopDone(orig, img0, h, ho, cnt, m, k)
    requires r.img == m.img && r.h == m.h
    ensures LoopDone(orig, img0, h, ho, cnt, r, k + 1)
  {
    hide Landed;
    FreeSame(orig, img0, m.img, h, ho, cnt, k);
  }

  lemma FreeSame(orig: seq<byte>, img0: seq<byte>, img: seq<byte>, h: seq<byte>, ho: nat, cnt: int, k: nat)
    requires |h| == 8 && k < 5 && |img| == |img0|
    requires forall x :: 0 <= x < |img0| && Free(orig, h, ho, cnt, k, x) ==> img[x] == img0[x]
    ensures forall x :: 0 <= x < |img0| && Free(orig, h, ho, cnt, k + 1, x) ==> img[x] == img0[x]
  {
    forall x | 0 <= x < |img0| && Free(orig, h, ho, cnt, k + 1, x) ensures Free(orig, h, ho, cnt, k, x) {
    }
  }

  lemma PassLanded(orig: seq<byte>, img: seq<byte>, h: seq<byte>, ho: nat, cnt: int, k: nat)
    requires |h| == 8 && 0 < k < 5 && Start(h, k) + 2 < |orig| && Start(h, k) + Part(orig, h, k) <= |orig|
    requires 0 <= Start(h, k) + 8 * cnt && Start(h, k) + 8 * cnt + Part(orig, h, k) <= |img|
    requires forall i :: 0 < i < k && Moves(h, ho, i) ==> Start(h, i) + 2 < |orig| && PartsApart(orig, h, i, k) && Landed(orig, img, h, cnt, i)
    ensures var r := Splice(img, Start(h, k) + 8 * cnt, orig[Start(h, k)..Start(h, k) + Part(orig, h, k)]);
      forall i :: 0 < i < k + 1 && Moves(h, ho, i) ==> Start(h, i) + 2 < |orig| && Landed(orig, r, h, cnt, i)
  {
    hide Splice, Landed, PartsApart;
    var r := Splice(img, Start(h, k) + 8 * cnt, orig[Start(h, k)..Start(h, k) + Part(orig, h, k)]);
    JustLanded(orig, img, h, cnt, k);
    forall i | 0 < i < k && Moves(h, ho, i) ensures Start(h, i) + 2 < |orig| && Landed(orig, r, h, cnt, i) {
      StillLanded(orig, img, h, cnt, i, k);
    }
  }

  lemma PassFree(orig: seq<byte>, img0: seq<byte>, img: seq<byte>, h: seq<byte>, ho: nat, cnt: int, k: nat)
    requires |h| == 8 && 0 < k < 5 && Moves(h, ho, k) && |img| == |img0|
    requires Start(h, k) + 2 < |orig| && Start(h, k) + Part(orig, h, k) <= |orig|
    requires 0 <= Start(h, k) + 8 * cnt && Start(h, k) + 8 * cnt + Part(orig, h, k) <= |img|
    requires forall x :: 0 <= x < |img0| && Free(orig, h, ho, cnt, k, x) ==> img[x] == img0[x]
    ensures var r := Splice(img, Start(h, k) + 8 * cnt, orig[Start(h, k)..Start(h, k) + Part(orig, h, k)]);
      forall x :: 0 <= x < |img0| && Free(orig, h, ho, cnt, k + 1, x) ==> r[x] == img0[x]
  {
    hide Splice, InPlace;
    forall x | 0 <= x < |img0| && Free(orig, h, ho, cnt, k + 1, x)
      ensures Free(orig, h, ho, cnt, k, x) && !InPlace(orig, h, cnt, k, x)
      ensures Splice(img, Start(h, k) + 8 * cnt, orig[Start(h, k)..Start(h, k) + Part(orig, h, k)])[x] == img[x]
    {
      NotInPlace(orig, img, h, cnt, k, x);
    }
  }

  lemma JustLanded(orig: seq<byte>, img: seq<byte>, h: seq<byte>, cnt: int, k: nat)
    requires |h| == 8 && k < 5 && Start(h, k) + 2 < |orig| && Start(h, k) + Part(orig, h, k) <= |orig|
    requires 0 <= Start(h, k) + 8 * cnt && Start(h, k) + 8 * cnt + Part(orig, h, k) <= |img|
    ensures Landed(orig, Splice(img, Start(h, k) + 8 * cnt, orig[Start(h, k)..Start(h, k) + Part(orig, h, k)]), h, cnt, k)
  {
    hide Splice;
    SplicedPart(img, Start(h, k) + 8 * cnt, orig[Start(h, k)..Start(h, k) + Part(orig, h, k)]);
  }

  lemma StillLanded(orig: seq<byte>, img: seq<byte>, h: seq<byte>, cnt: int, i: nat, k: nat)
    requires |h| == 8 && i < 5 && k < 5 && Start(h, i) + 2 < |orig| && Start(h, k) + 2 < |orig| && PartsApart(orig, h, i, k)
    requires Start(h, k) + Part(orig, h, k) <= |orig| && Landed(orig, img, h, cnt, i)
    requires 0 <= Start(h, k) + 8 * cnt && Start(h, k) + 8 * cnt + Part(orig, h, k) <= |img|
    ensures Landed(orig, Splice(img, Start(h, k) + 8 * cnt, orig[Start(h, k)..Start(h, k) + Part(orig, h, k)]), h, cnt, i)
  {
    hide Splice;
    SplicedElsewhere(img, Start(h, k) + 8 * cnt, orig[Start(h, k)..Start(h, k) + Part(orig, h, k)],
                     Start(h, i) + 8 * cnt, Start(h, i) + 8 * cnt + Part(orig, h, i));
  }

  lemma NotInPlace(orig: seq<byte>, img: seq<byte>, h: seq<byte>, cnt: int, k: nat, x: nat)
    requires |h| == 8 && k < 5 && Start(h, k) + 2 < |orig| && Start(h, k) + Part(orig, h, k) <= |orig| && x < |img|
    requires 0 <= Start(h, k) + 8 * cnt && Start(h, k) + 8 * cnt + Part(orig, h, k) <= |img| && !InPlace(orig, h, cnt, k, x)
    ensures Splice(img, Start(h, k) + 8 * cnt, orig[Start(h, k)..Start(h, k) + Part(orig, h, k)])[x] == img[x]
  {
  }

  lemma SplicedPart(img: seq<byte>, at: nat, t: seq<byte>)
    requires at + |t| <= |img|
    ensures Splice(img, at, t)[at..at + |t|] == t
  {
  }

  lemma SplicedElsewhere(img: seq<byte>, at: nat, t: seq<byte>, from: nat, to: nat)
    requires at + |t| <= |img| && from <= to <= |img| && (to <= at || at + |t| <= from)
    ensures Splice(img, at, t)[from..to] == img[from..to]
  {
  }

  lemma {:induction false} MoveAreasDone(orig: seq<byte>, img0: seq<byte>, h: seq<byte>, ho: nat, cnt: int, limit: nat, k: nat)
    requires LoopOk(orig, |img0|, h, ho, cnt, limit) && k <= 5
    ensures LoopDone(orig, img0, h, ho, cnt, MoveAreas(orig, ho, cnt, Moved(img0, h, 0, 0), k), k)
  {
    hide MoveArea, Free, Landed, PartOk, PartsApart;
    if k > 0 {
      MoveAreasDone(orig, img0, h, ho, cnt, limit, k - 1);
      var m := MoveAreas(orig, ho, cnt, Moved(img0, h, 0, 0), k - 1);
      SameOffsets(h, m.h, k - 1);
      PassDone(orig, img0, h, ho, cnt, limit, m, k - 1);
    }
  }

  // ---- the end of the FRU ----

  // The last area seen is the one with the highest offset, and where it was taken to end.
  ghost predicate EndOk(orig: seq<byte>, h: seq<byte>, m: Moved, k: nat)
    requires |h| == 8 && k <= 5
  {
    && (forall i :: 0 <= i < k && Seen(h, i) ==> Blk(h, i) <= m.last)
    && (m.last != 0 ==> exists i :: 0 <= i < k && EndsAt(orig, h, m, i))
  }

  ghost predicate EndsAt(orig: seq<byte>, h: seq<byte>, m: Moved, i: nat)
    requires |h| == 8 && i < 5
  {
    Seen(h, i) && Blk(h, i) == m.last && Start(h, i) + 2 < |orig| && m.end == Start(h, i) + EndLength(orig, Blk(h, i), IsMulti(h, i))
  }

  lemma PassEnd(orig: seq<byte>, h: seq<byte>, ho: nat, cnt: int, m: Moved, k: nat)
    requires |h| == 8 && |m.h| == 8 && k < 5
    requires Seen(m.h, k) == Seen(h, k) && Blk(m.h, k) == Blk(h, k) && IsMulti(m.h, k) == IsMulti(h, k)
    requires Seen(m.h, k) ==> CanMove(orig, |m.img|, Blk(m.h, k), IsMulti(m.h, k), ho, cnt)
    requires EndOk(orig, h, m, k)
    ensures EndOk(orig, h, MoveArea(orig, ho, cnt, m, k), k + 1)
  {
    hide Splice;
    var r := MoveArea(orig, ho, cnt, m, k);
    if r.last != m.last {
      assert EndsAt(orig, h, r, k);
    } else if m.last != 0 {
      var i :| 0 <= i < k && EndsAt(orig, h, m, i);
      assert EndsAt(orig, h, r, i);
    }
  }

  lemma {:induction false} MoveAreasEnd(orig: seq<byte>, img0: seq<byte>, h: seq<byte>, ho: nat, cnt: int, k: nat)
    requires CanMoveAll(orig, |img0|, h, ho, cnt) && k <= 5
    ensures EndOk(orig, h, MoveAreas(orig, ho, cnt, Moved(img0, h, 0, 0), k), k)
  {
    hide MoveArea, EndsAt;
    if k > 0 {
      MoveAreasEnd(orig, img0, h, ho, cnt, k - 1);
      var m := MoveAreas(orig, ho, cnt, Moved(img0, h, 0, 0), k - 1);
      SameOffsets(h, m.h, k - 1);
      PassEnd(orig, h, ho, cnt, m, k - 1);
    }
  }

  // ---- a shiftable section ----

  ghost function Limit(orig: seq<byte>, h: seq<byte>, e: nat, cnt: int): int
    requires |h| == 8 && e < 5 && Start(h, e) + 1 < |orig|
  {
    Start(h, e) + Length(orig, h, e) + 8 * cnt
  }

  // Moved areas start behind the edited section, so their new places start behind its
  // new end.
  lemma NewPlace(orig: seq<byte>, size: nat, room: nat, h: seq<byte>, e: nat, cnt: int, i: nat)
    requires Shiftable(orig, size, room, h, e, cnt) && 0 < i < 5 && Moves(h, Start(h, e), i)
    ensures AreaInside(orig, h, size, e) && 8 <= Start(h, e) < Limit(orig, h, e, cnt) <= room
    ensures Start(h, e) + Length(orig, h, e) <= Start(h, i)
    ensures PartOk(orig, room, h, Start(h, e), cnt, Limit(orig, h, e, cnt), i)
    ensures i != MULTI ==> AreaInside(orig, h, size, i) && Part(orig, h, i) == Length(orig, h, i)
    ensures i == MULTI ==> MultiFits(orig, size, room, h, cnt)
  {
    if i != MULTI {
      assert Info(i) && AreaInside(orig, h, size, i) && Apart(orig, h, i, e);
    }
  }

  lemma ShiftableLoopOk(orig: seq<byte>, size: nat, room: nat, h: seq<byte>, e: nat, cnt: int)
    requires Shiftable(orig, size, room, h, e, cnt)
    ensures AreaInside(orig, h, size, e) && 8 <= Start(h, e) < Limit(orig, h, e, cnt) <= room
    ensures LoopOk(orig, room, h, Start(h, e), cnt, Limit(orig, h, e, cnt))
  {
    assert AreaInside(orig, h, size, e);
    var ho, limit := Start(h, e), Limit(orig, h, e, cnt);
    hide Shiftable, PartOk;
    forall i | 0 <= i < 5 && Seen(h, i) ensures CanMove(orig, room, Blk(h, i), IsMulti(h, i), ho, cnt) {
      SeenCanMove(orig, size, room, h, e, cnt, i);
    }
    forall i | 0 < i < 5 && Moves(h, ho, i) ensures PartOk(orig, room, h, ho, cnt, limit, i) {
      NewPlace(orig, size, room, h, e, cnt, i);
    }
    forall i, j | 0 < i < j < 5 && Moves(h, ho, i) && Moves(h, ho, j)
      ensures Start(h, i) + 2 < |orig| && Start(h, j) + 2 < |orig| && PartsApart(orig, h, i, j)
    {
      MovedApart(orig, size, room, h, e, cnt, i, j);
    }
  }

  lemma SeenCanMove(orig: seq<byte>, size: nat, room: nat, h: seq<byte>, e: nat, cnt: int, i: nat)
    requires Shiftable(orig, size, room, h, e, cnt) && Seen(h, i)
    ensures CanMove(orig, room, Blk(h, i), IsMulti(h, i), Start(h, e), cnt)
  {
    assert AreaInside(orig, h, size, e);
    if Moves(h, Start(h, e), i) {
      NewPlace(orig, size, room, h, e, cnt, i);
    }
  }

  lemma MovedApart(orig: seq<byte>, size: nat, room: nat, h: seq<byte>, e: nat, cnt: int, i: nat, j: nat)
    requires Shiftable(orig, size, room, h, e, cnt) && 0 < i < j < 5 && Moves(h, Start(h, e), i) && Moves(h, Start(h, e), j)
    ensures Start(h, i) + 2 < |orig| && Start(h, j) + 2 < |orig| && PartsApart(orig, h, i, j)
  {
    NewPlace(orig, size, room, h, e, cnt, i);
    NewPlace(orig, size, room, h, e, cnt, j);
    if j != MULTI {
      assert Apart(orig, h, i, j);
    }
  }

  // The erased bytes lie behind the edited section and behind every moved info area.
  lemma EraseIsBehind(orig: seq<byte>, size: nat, room: nat, h: seq<byte>, e: nat, cnt: int, m: Moved)
    requires Shiftable(orig, size, room, h, e, cnt) && |m.img| == room && EndOk(orig, h, m, 5)
    ensures CanErase(m, cnt) && Start(h, e) + 1 < |orig| && Limit(orig, h, e, cnt) <= m.end + 8 * cnt
    ensures forall i :: 0 <= i < 5 && Info(i) && Moves(h, Start(h, e), i) ==>
      AreaInside(orig, h, size, i) && Start(h, i) + 8 * cnt + Length(orig, h, i) <= m.end + 8 * cnt
  {
    assert AreaInside(orig, h, size, e) && Seen(h, e) && Blk(h, e) <= m.last;
    var l :| 0 <= l < 5 && EndsAt(orig, h, m, l);
    LastIsBehind(orig, size, room, h, e, cnt, m, l, e);
    forall i | 0 <= i < 5 && Info(i) && Moves(h, Start(h, e), i)
      ensures AreaInside(orig, h, size, i) && Start(h, i) + Length(orig, h, i) <= m.end
    {
      assert AreaInside(orig, h, size, i) && Seen(h, i);
      LastIsBehind(orig, size, room, h, e, cnt, m, l, i);
    }
  }

  lemma LastIsBehind(orig: seq<byte>, size: nat, room: nat, h: seq<byte>, e: nat, cnt: int, m: Moved, l: nat, i: nat)
    requires Shiftable(orig, size, room, h, e, cnt) && l < 5 && EndsAt(orig, h, m, l)
    requires Info(i) && Present(h, i) && AreaInside(orig, h, size, i) && Start(h, i) >= Start(h, e) && Blk(h, i) <= m.last
    ensures Start(h, i) + Length(orig, h, i) <= m.end <= size
  {
    if Info(l) {
      assert AreaInside(orig, h, size, l) && !IsMulti(h, l);
      if l != i { assert Apart(orig, h, i, l); }
    } else {
      assert l == MULTI && Start(h, MULTI) > Start(h, e) && MultiFits(orig, size, room, h, cnt);
    }
  }

  // ---- the internal use area ----

  lemma {:induction false} NextIsNear(h: seq<byte>, size: nat, k: nat, i: nat)
    requires |h| == 8 && k <= 5 && i < k && Seen(h, i) && Blk(h, i) > Blk(h, INTERNAL)
    ensures NextBlk(h, size, k) <= Blk(h, i)
  {
    if i < k - 1 {
      NextIsNear(h, size, k - 1, i);
    }
  }

  // Moving the internal use area hits neither the section nor an info area.
  lemma InternalIsApart(orig: seq<byte>, size: nat, room: nat, h: seq<byte>, e: nat, cnt: int, i: nat)
    requires Shiftable(orig, size, room, h, e, cnt) && Moves(h, Start(h, e), INTERNAL) && Info(i) && Present(h, i)
    ensures AreaInside(orig, h, size, i) && CanMoveInternal(orig, room, h, size, Start(h, e), cnt)
    ensures Start(h, i) + Length(orig, h, i) <= Start(h, INTERNAL) || Start(h, INTERNAL) + InternalLength(h, size) <= Start(h, i)
    ensures i == e ==> Start(h, i) + Length(orig, h, i) <= Start(h, INTERNAL)
  {
    assert AreaInside(orig, h, size, i);
    assert InternalFits(orig, size, room, h, Start(h, e), cnt);
    if Blk(h, i) > Blk(h, INTERNAL) {
      NextIsNear(h, size, FRU_AREAS_COUNT, i);
    }
  }

  // ---- all of it ----

  // The result of the relocation for an image that started as a copy of the old one.
  ghost predicate Relocated(orig: seq<byte>, img0: seq<byte>, size: nat, h: seq<byte>, e: nat, cnt: int, r: Moved)
    requires AreasOk(orig, h, size) && e < 5 && Present(h, e) && Start(h, e) + 1 < |orig|
  {
    var limit := Limit(orig, h, e, cnt);
    && |r.img| == |img0| && |r.h| == 8 && 8 <= limit <= |img0|
    && r.img[..8] == r.h && ZeroSum(r.h) && r.h[0] == h[0] && r.h[6] == h[6]
    && (forall i :: 0 <= i < 5 ==> Blk(r.h, i) as int == NewBlk(h, Start(h, e), cnt, i))
    && (forall i :: 0 <= i < 5 && Info(i) && i != e && Present(h, i) ==> AreaInside(orig, h, size, i) && Stands(orig, r.img, h, Start(h, e), cnt, i))
    && r.img[8..limit] == img0[8..limit]
    && (cnt < 0 ==> limit <= r.end + 8 * cnt <= r.end <= |r.img| && r.img[r.end + 8 * cnt..r.end] == Zeros(-8 * cnt))
  }

  lemma WithChecksumIsZeroSum(h: seq<byte>)
    requires |h| == 8
    ensures ZeroSum(WithChecksum(h))
  {
    ComplementCloses(h[..7], Complement(h[..7]));
    assert WithChecksum(h) == h[..7] + [Complement(h[..7])];
  }

  lemma ShiftableCanRelocate(orig: seq<byte>, img0: seq<byte>, size: nat, h: seq<byte>, e: nat, cnt: int)
    requires Shiftable(orig, size, |img0|, h, e, cnt)
    ensures CanRelocate(orig, img0, h, size, Start(h, e), cnt)
  {
    ShiftableLoopOk(orig, size, |img0|, h, e, cnt);
    MoveAreasEnd(orig, img0, h, Start(h, e), cnt, FRU_AREAS_COUNT);
    EraseIsBehind(orig, size, |img0|, h, e, cnt, MoveAreas(orig, Start(h, e), cnt, Moved(img0, h, 0, 0), FRU_AREAS_COUNT));
  }

  // Every chassis, board and product area other than the edited one appears byte for
  // byte at its new header offset (its old one if it lies before the edited section),
  // the rest of the image up to the edited section's new end is untouched, whatever area
  // it belongs to, the header sums to zero, and the erased tail hits none of this.
  lemma RelocateOk(orig: seq<byte>, img0: seq<byte>, size: nat, h: seq<byte>, e: nat, cnt: int)
    requires Shiftable(orig, size, |img0|, h, e, cnt) && img0[..size] == orig[..size]
    ensures CanRelocate(orig, img0, h, size, Start(h, e), cnt)
    ensures Relocated(orig, img0, size, h, e, cnt, Relocate(orig, img0, h, size, Start(h, e), cnt))
  {
    ShiftableCanRelocate(orig, img0, size, h, e, cnt);
    ShiftableLoopOk(orig, size, |img0|, h, e, cnt);
    var ho := Start(h, e);
    hide Shiftable, LoopDone, Relocate, Relocated, CanRelocate, LoopOk, EndOk, MoveInternal, Finish, AreasOk;
    MoveAreasDone(orig, img0, h, ho, cnt, Limit(orig, h, e, cnt), FRU_AREAS_COUNT);
    MoveAreasEnd(orig, img0, h, ho, cnt, FRU_AREAS_COUNT);
    RelocateIs(orig, img0, h, size, ho, cnt);
    FinishedOk(orig, img0, size, h, e, cnt, MoveAreas(orig, ho, cnt, Moved(img0, h, 0, 0), FRU_AREAS_COUNT));
  }

  lemma FinishedOk(orig: seq<byte>, img0: seq<byte>, size: nat, h: seq<byte>, e: nat, cnt: int, m: Moved)
    requires Shiftable(orig, size, |img0|, h, e, cnt) && img0[..size] == orig[..size]
    requires LoopDone(orig, img0, h, Start(h, e), cnt, m, 5) && EndOk(orig, h, m, 5)
    requires CanMoveInternal(orig, |m.img|, h, size, Start(h, e), cnt) && 8 <= |m.img| && CanErase(m, cnt)
    ensures Start(h, e) + 1 < |orig|
    ensures Relocated(orig, img0, size, h, e, cnt, Finish(MoveInternal(orig, h, size, Start(h, e), cnt, m), cnt))
  {
    ShiftableLoopOk(orig, size, |img0|, h, e, cnt);
    EraseIsBehind(orig, size, |img0|, h, e, cnt, m);
    var ho, limit := Start(h, e), Limit(orig, h, e, cnt);
    var n := MoveInternal(orig, h, size, ho, cnt, m);
    HeaderMoved(orig, img0, size, h, e, cnt, m);
    WithChecksumIsZeroSum(n.h);
    FrontMoved(orig, img0, size, h, e, cnt, limit, m);
    FrontStays(orig, size, h, e, cnt, limit, m);
    hide MoveInternal, Finish, LoopDone, LoopOk, EndOk, Stands, MultiFits, InternalFits, Shiftable;
    FinishBytes(n, cnt, limit, img0);
    InfosStand(orig, img0, size, h, e, cnt, m);
  }

  lemma InfosStand(orig: seq<byte>, img0: seq<byte>, size: nat, h: seq<byte>, e: nat, cnt: int, m: Moved)
    requires Shiftable(orig, size, |img0|, h, e, cnt) && img0[..size] == orig[..size]
    requires LoopDone(orig, img0, h, Start(h, e), cnt, m, 5) && EndOk(orig, h, m, 5)
    requires CanMoveInternal(orig, |m.img|, h, size, Start(h, e), cnt) && 8 <= |m.img| && CanErase(m, cnt)
    ensures var img := Finish(MoveInternal(orig, h, size, Start(h, e), cnt, m), cnt).img;
      forall i :: 0 <= i < 5 && Info(i) && i != e && Present(h, i) ==>
        AreaInside(orig, h, size, i) && Stands(orig, img, h, Start(h, e), cnt, i)
  {
    var img := Finish(MoveInternal(orig, h, size, Start(h, e), cnt, m), cnt).img;
    hide MoveInternal, Finish, LoopDone, EndOk, Stands, MultiFits, InternalFits;
    forall i | 0 <= i < 5 && Info(i) && i != e && Present(h, i)
      ensures AreaInside(orig, h, size, i) && Stands(orig, img, h, Start(h, e), cnt, i)
    {
      InfoStands(orig, img0, size, h, e, cnt, m, i);
    }
  }

  lemma RelocateIs(orig: seq<byte>, img0: seq<byte>, h: seq<byte>, size: nat, ho: nat, cnt: int)
    requires CanRelocate(orig, img0, h, size, ho, cnt)
    ensures var m := MoveAreas(orig, ho, cnt, Moved(img0, h, 0, 0), FRU_AREAS_COUNT);
      && CanMoveInternal(orig, |m.img|, h, size, ho, cnt) && 8 <= |m.img| && CanErase(m, cnt)
      && Relocate(orig, img0, h, size, ho, cnt) == Finish(MoveInternal(orig, h, size, ho, cnt, m), cnt)
  {
    hide MoveInternal, Finish, MoveAreas;
  }

  lemma HeaderMoved(orig: seq<byte>, img0: seq<byte>, size: nat, h: seq<byte>, e: nat, cnt: int, m: Moved)
    requires Shiftable(orig, size, |img0|, h, e, cnt) && LoopDone(orig, img0, h, Start(h, e), cnt, m, 5)
    requires CanMoveInternal(orig, |m.img|, h, size, Start(h, e), cnt)
    ensures var n := MoveInternal(orig, h, size, Start(h, e), cnt, m);
      n.h[0] == h[0] && n.h[6] == h[6] && forall i :: 0 <= i < 5 ==> Blk(n.h, i) as int == NewBlk(h, Start(h, e), cnt, i)
  {
    hide Splice, Free, Landed;
  }

  // No byte before limit is in a place.
  lemma FrontMoved(orig: seq<byte>, img0: seq<byte>, size: nat, h: seq<byte>, e: nat, cnt: int, limit: nat, m: Moved)
    requires Shiftable(orig, size, |img0|, h, e, cnt) && LoopDone(orig, img0, h, Start(h, e), cnt, m, 5)
    requires Start(h, e) + 1 < |orig| && limit == Limit(orig, h, e, cnt) <= |img0|
    ensures m.img[..limit] == img0[..limit]
  {
    hide Landed;
    forall x | 0 <= x < limit ensures m.img[x] == img0[x] {
      FrontIsFree(orig, size, |img0|, h, e, cnt, x);
    }
  }

  lemma FrontStays(orig: seq<byte>, size: nat, h: seq<byte>, e: nat, cnt: int, limit: nat, m: Moved)
    requires Shiftable(orig, size, |m.img|, h, e, cnt) && |m.h| == 8 && CanMoveInternal(orig, |m.img|, h, size, Start(h, e), cnt)
    requires Start(h, e) + 1 < |orig| && limit == Limit(orig, h, e, cnt) <= |m.img|
    ensures MoveInternal(orig, h, size, Start(h, e), cnt, m).img[..limit] == m.img[..limit]
  {
    hide Splice;
    if Moves(h, Start(h, e), INTERNAL) {
      InternalIsApart(orig, size, |m.img|, h, e, cnt, e);
      SplicedElsewhere(m.img, Start(h, INTERNAL) + 8 * cnt,
                       orig[Start(h, INTERNAL)..Start(h, INTERNAL) + InternalLength(h, size)], 0, limit);
    }
  }

  lemma FrontIsFree(orig: seq<byte>, size: nat, room: nat, h: seq<byte>, e: nat, cnt: int, x: nat)
    requires Shiftable(orig, size, room, h, e, cnt) && Start(h, e) + 1 < |orig| && x < Limit(orig, h, e, cnt)
    ensures Free(orig, h, Start(h, e), cnt, 5, x)
  {
    forall i | 0 < i < 5 && Moves(h, Start(h, e), i) && Start(h, i) + 2 < |orig| ensures !InPlace(orig, h, cnt, i, x) {
      NewPlace(orig, size, room, h, e, cnt, i);
    }
  }

  lemma FinishBytes(m: Moved, cnt: int, limit: nat, img0: seq<byte>)
    requires |m.h| == 8 && 8 <= limit <= |m.img| == |img0| && CanErase(m, cnt) && limit <= m.end + 8 * cnt
    requires m.img[..limit] == img0[..limit]
    ensures var r := Finish(m, cnt);
      && r.img[..8] == r.h && r.h == WithChecksum(m.h) && r.end == m.end
      && r.img[8..limit] == img0[8..limit]
      && (cnt < 0 ==> r.img[r.end + 8 * cnt..r.end] == Zeros(-8 * cnt))
  {
    var r := Finish(m, cnt);
    assert forall x :: 8 <= x < limit ==> r.img[x] == m.img[..limit][x] == img0[..limit][x];
  }

  // Bytes between the header and the erased tail stay as they are.
  lemma FinishKeeps(m: Moved, cnt: int, from: nat, to: nat)
    requires |m.h| == 8 && 8 <= |m.img| && CanErase(m, cnt)
    requires 8 <= from <= to <= |m.img| && (cnt < 0 ==> to <= m.end + 8 * cnt || m.end <= from)
    ensures Finish(m, cnt).img[from..to] == m.img[from..to]
  {
  }

  lemma InfoStands(orig: seq<byte>, img0: seq<byte>, size: nat, h: seq<byte>, e: nat, cnt: int, m: Moved, i: nat)
    requires Shiftable(orig, size, |img0|, h, e, cnt) && img0[..size] == orig[..size]
    requires LoopDone(orig, img0, h, Start(h, e), cnt, m, 5) && EndOk(orig, h, m, 5)
    requires CanMoveInternal(orig, |m.img|, h, size, Start(h, e), cnt) && 8 <= |m.img| && CanErase(m, cnt)
    requires Info(i) && i != e && Present(h, i)
    ensures AreaInside(orig, h, size, i)
    ensures Stands(orig, Finish(MoveInternal(orig, h, size, Start(h, e), cnt, m), cnt).img, h, Start(h, e), cnt, i)
  {
    var ho, n := Start(h, e), MoveInternal(orig, h, size, Start(h, e), cnt, m);
    var to := 8 * NewBlk(h, ho, cnt, i);
    hide MoveInternal, Finish, LoopDone, EndOk, MultiFits, InternalFits;
    EraseIsBehind(orig, size, |img0|, h, e, cnt, m);
    InfoInLoop(orig, img0, size, h, e, cnt, m, i);
    InternalElsewhere(orig, size, h, e, cnt, m, i);
    hide Shiftable, AreasOk, AreaInside, Stands;
    FinishKeeps(n, cnt, to, to + Length(orig, h, i));
    StandsSame(orig, n.img, Finish(n, cnt).img, h, ho, cnt, i);
  }

  lemma InfoInLoop(orig: seq<byte>, img0: seq<byte>, size: nat, h: seq<byte>, e: nat, cnt: int, m: Moved, i: nat)
    requires Shiftable(orig, size, |img0|, h, e, cnt) && img0[..size] == orig[..size]
    requires LoopDone(orig, img0, h, Start(h, e), cnt, m, 5) && Info(i) && i != e && Present(h, i)
    ensures AreaInside(orig, h, size, i) && AreaInside(orig, h, size, e)
    ensures var ho, to := Start(h, e), 8 * NewBlk(h, Start(h, e), cnt, i);
      && 8 <= to && to + Length(orig, h, i) <= |m.img| && Stands(orig, m.img, h, ho, cnt, i)
      && (!Moves(h, ho, i) ==> to + Length(orig, h, i) <= Limit(orig, h, e, cnt))
  {
    assert AreaInside(orig, h, size, i) && AreaInside(orig, h, size, e) && Apart(orig, h, i, e);
    var ho := Start(h, e);
    if Moves(h, ho, i) {
      NewPlace(orig, size, |img0|, h, e, cnt, i);
      assert Landed(orig, m.img, h, cnt, i);
      hide Shiftable, LoopDone, AreasOk, Landed, Stands;
      LandedStands(orig, m.img, h, ho, cnt, i);
    } else {
      hide LoopDone, Stands;
      FrontMoved(orig, img0, size, h, e, cnt, Limit(orig, h, e, cnt), m);
      StandsUnmoved(orig, img0, m.img, size, h, ho, cnt, i, Limit(orig, h, e, cnt));
    }
  }

  lemma StandsSame(orig: seq<byte>, a: seq<byte>, b: seq<byte>, h: seq<byte>, ho: nat, cnt: int, i: nat)
    requires |h| == 8 && i < 5 && Start(h, i) + 1 < |orig| && |a| == |b| && Stands(orig, a, h, ho, cnt, i)
    requires var to := 8 * NewBlk(h, ho, cnt, i); b[to..to + Length(orig, h, i)] == a[to..to + Length(orig, h, i)]
    ensures Stands(orig, b, h, ho, cnt, i)
  {
  }

  lemma LandedStands(orig: seq<byte>, img: seq<byte>, h: seq<byte>, ho: nat, cnt: int, i: nat)
    requires |h| == 8 && i < 5 && Moves(h, ho, i) && Start(h, i) + 2 < |orig| && Part(orig, h, i) == Length(orig, h, i)
    requires Landed(orig, img, h, cnt, i)
    ensures Stands(orig, img, h, ho, cnt, i)
  {
    assert 8 * NewBlk(h, ho, cnt, i) == Start(h, i) + 8 * cnt;
  }

  lemma StandsUnmoved(orig: seq<byte>, img0: seq<byte>, img: seq<byte>, size: nat, h: seq<byte>, ho: nat, cnt: int, i: nat, limit: nat)
    requires |h| == 8 && i < 5 && AreaInside(orig, h, size, i) && !Moves(h, ho, i)
    requires Start(h, i) + Length(orig, h, i) <= limit <= |img| && size <= |img0| == |img|
    requires img[..limit] == img0[..limit] && img0[..size] == orig[..size]
    ensures Stands(orig, img, h, ho, cnt, i)
  {
    var from, to := Start(h, i), Start(h, i) + Length(orig, h, i);
    assert img[from..to] == img[..limit][from..to] == img0[from..to];
    assert img0[from..to] == img0[..size][from..to] == orig[from..to];
  }

  lemma InternalElsewhere(orig: seq<byte>, size: nat, h: seq<byte>, e: nat, cnt: int, m: Moved, i: nat)
    requires Shiftable(orig, size, |m.img|, h, e, cnt) && Info(i) && i != e && Present(h, i) && |m.h| == 8
    requires CanMoveInternal(orig, |m.img|, h, size, Start(h, e), cnt) && Start(h, i) + 1 < |orig|
    requires Stands(orig, m.img, h, Start(h, e), cnt, i)
    ensures Stands(orig, MoveInternal(orig, h, size, Start(h, e), cnt, m).img, h, Start(h, e), cnt, i)
  {
    var ho, to := Start(h, e), 8 * NewBlk(h, Start(h, e), cnt, i);
    if Moves(h, ho, INTERNAL) {
      InternalIsApart(orig, size, |m.img|, h, e, cnt, i);
      InternalIsApart(orig, size, |m.img|, h, e, cnt, e);
      assert Apart(orig, h, i, e);
      assert 0 <= to && to + Length(orig, h, i) <= |m.img|;
      hide Splice, Stands, Shiftable;
      SplicedElsewhere(m.img, Start(h, INTERNAL) + 8 * cnt,
                       orig[Start(h, INTERNAL)..Start(h, INTERNAL) + InternalLength(h, size)], to, to + Length(orig, h, i));
      StandsSame(orig, m.img, MoveInternal(orig, h, size, ho, cnt, m).img, h, ho, cnt, i);
    }
  }

  // In the new image the info areas are as far apart as before: the edited one with its
  // new length, the others with their old ones, each at its new offset.
  lemma NewAreasApart(orig: seq<byte>, size: nat, room: nat, h: seq<byte>, e: nat, cnt: int, i: nat, j: nat)
    requires Shiftable(orig, size, room, h, e, cnt) && Info(i) && Info(j) && i != j && Present(h, i) && Present(h, j)
    ensures AreaInside(orig, h, size, i) && AreaInside(orig, h, size, j)
    ensures var ho := Start(h, e);
      var len := (a: nat) requires a < 5 && Start(h, a) + 1 < |orig| => if a == e then Length(orig, h, a) + 8 * cnt else Length(orig, h, a);
      var si, sj := 8 * NewBlk(h, ho, cnt, i), 8 * NewBlk(h, ho, cnt, j);
      si + len(i) <= sj || sj + len(j) <= si
  {
    assert AreaInside(orig, h, size, i) && AreaInside(orig, h, size, j) && AreaInside(orig, h, size, e);
    assert Apart(orig, h, i, j);
    assert i != e ==> Apart(orig, h, i, e);
    assert j != e ==> Apart(orig, h, j, e);
  }
}
