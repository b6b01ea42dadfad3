// The resizing editor, part two: moving the areas behind a resized section, rewriting
// the common header and erasing the tail.
module FruMove {
  import opened Bytes

  // ---- areas of an image ----

  const FRU_AREAS_COUNT := 5
  const INTERNAL := 0
  const MULTI := 4

  // The common header h: version, five area offsets in blocks (internal use, chassis,
  // board, product, multirecord), pad, checksum. Areas are numbered 0 to 4.
  function Blk(h: seq<byte>, i: nat): nat
    requires |h| == 8 && i < 5
  {
    h[1 + i]
  }

  function Start(h: seq<byte>, i: nat): nat
    requires |h| == 8 && i < 5
  {
    8 * Blk(h, i)
  }

  predicate Present(h: seq<byte>, i: nat)
    requires |h| == 8 && i < 5
  {
    Blk(h, i) != 0
  }

  // An info area's length comes from its second byte.
  function Length(img: seq<byte>, h: seq<byte>, i: nat): nat
    requires |h| == 8 && i < 5 && Start(h, i) + 1 < |img|
  {
    8 * img[Start(h, i) + 1] as int
  }

  // The chassis, board and product areas: the ones that start with their own length.
  predicate Info(i: nat) {
    INTERNAL < i < MULTI
  }

  // The info areas lie behind the header, inside the first `size` bytes, and apart, and
  // no other area starts where one of them does.
  ghost predicate AreasOk(img: seq<byte>, h: seq<byte>, size: nat) {
    && |h| == 8 && size <= |img|
    && (forall i :: 0 <= i < 5 && Info(i) && Present(h, i) ==> AreaInside(img, h, size, i))
    && (forall i, j :: 0 <= i < 5 && 0 <= j < 5 && Info(i) && Info(j) && i != j && Present(h, i) && Present(h, j) ==> Apart(img, h, i, j))
    && (forall i :: 0 <= i < 5 && Info(i) && Present(h, i) ==> Blk(h, i) != Blk(h, INTERNAL) && Blk(h, i) != Blk(h, MULTI))
  }

  ghost predicate AreaInside(img: seq<byte>, h: seq<byte>, size: nat, i: nat)
    requires |h| == 8 && i < 5
  {
    Start(h, i) + 1 < size <= |img| && Length(img, h, i) > 0 && Start(h, i) + Length(img, h, i) <= size
  }

  ghost predicate Apart(img: seq<byte>, h: seq<byte>, i: nat, j: nat)
    requires |h| == 8 && i < 5 && j < 5 && Start(h, i) + 1 < |img| && Start(h, j) + 1 < |img|
  {
    Start(h, i) + Length(img, h, i) <= Start(h, j) || Start(h, j) + Length(img, h, j) <= Start(h, i)
  }

  // ---- the loop over the areas ----

  // The new image, the local header, the last area seen and where it ends.
  datatype Moved = Moved(img: seq<byte>, h: seq<byte>, last: nat, end: nat)

  // The loop passes over absent areas and over the internal use area.
  predicate Seen(h: seq<byte>, i: nat) {
    |h| == 8 && 0 < i < 5 && Present(h, i) && Blk(h, i) != Blk(h, INTERNAL)
  }

  predicate IsMulti(h: seq<byte>, i: nat)
    requires |h| == 8 && i < 5
  {
    Blk(h, i) == Blk(h, MULTI)
  }

  // How many bytes of an area the loop moves, and how long it takes the area to be when
  // it looks for the end of the FRU. For a multirecord area these are the data length of
  // the first record, and the size of that record if it is the last one, otherwise 0.
  function MovedLength(orig: seq<byte>, blk: nat, multi: bool): nat
    requires 8 * blk + 2 < |orig|
  {
    if multi then orig[8 * blk + 2] else 8 * orig[8 * blk + 1] as int
  }

  function EndLength(orig: seq<byte>, blk: nat, multi: bool): nat
    requires 8 * blk + 2 < |orig|
  {
    if !multi then 8 * orig[8 * blk + 1] as int
    else if orig[8 * blk + 1] >= 0x80 then orig[8 * blk + 2] as int + 5
    else 0
  }

  // An area can be read from the old image and, if it moves, copied into the new one.
  ghost predicate CanMove(orig: seq<byte>, room: nat, blk: nat, multi: bool, ho: nat, cnt: int) {
    && 8 * blk + 2 < |orig|
    && (8 * blk > ho ==>
         var len := MovedLength(orig, blk, multi);
         8 * blk + len <= |orig| && 0 <= blk + cnt && 8 * (blk + cnt) + len <= room)
  }

  ghost predicate CanMoveAll(orig: seq<byte>, room: nat, h: seq<byte>, ho: nat, cnt: int) {
    |h| == 8 && forall i :: 0 <= i < 5 && Seen(h, i) ==> CanMove(orig, room, Blk(h, i), IsMulti(h, i), ho, cnt)
  }

  // One pass for area i, whose offset and the multirecord area's are still the original
  // ones.
  ghost function MoveArea(orig: seq<byte>, ho: nat, cnt: int, m: Moved, i: nat): (r: Moved)
    requires |m.h| == 8 && i < 5
    requires Seen(m.h, i) ==> CanMove(orig, |m.img|, Blk(m.h, i), IsMulti(m.h, i), ho, cnt)
    ensures |r.img| == |m.img| && |r.h| == 8
    ensures forall j :: 0 <= j < 8 && (j != 1 + i || i == INTERNAL) ==> r.h[j] == m.h[j]
  {
    if !Seen(m.h, i) then m
    else
      var blk, multi := Blk(m.h, i), IsMulti(m.h, i);
      var m1 := if m.last < blk then m.(last := blk, end := 8 * blk + EndLength(orig, blk, multi)) else m;
      if 8 * blk > ho then
        m1.(img := Splice(m1.img, 8 * (blk + cnt), orig[8 * blk..8 * blk + MovedLength(orig, blk, multi)]),
            h := m1.h[1 + i := (blk + cnt) % 0x100])
      else m1
  }

  ghost function MoveAreas(orig: seq<byte>, ho: nat, cnt: int, m: Moved, k: nat): (r: Moved)
    requires k <= 5 && CanMoveAll(orig, |m.img|, m.h, ho, cnt)
    ensures |r.img| == |m.img| && |r.h| == 8
    ensures forall j :: 0 <= j < 8 && !(1 < j <= k) ==> r.h[j] == m.h[j]
  {
    if k == 0 then m
    else
      var p := MoveAreas(orig, ho, cnt, m, k - 1);
      SameOffsets(m.h, p.h, k - 1);
      MoveArea(orig, ho, cnt, p, k - 1)
  }

  lemma SameOffsets(h: seq<byte>, p: seq<byte>, i: nat)
    requires |h| == |p| == 8 && i < 5 && forall j :: 0 <= j < 8 && !(1 < j <= i) ==> p[j] == h[j]
    ensures Seen(p, i) == Seen(h, i) && Blk(p, i) == Blk(h, i) && IsMulti(p, i) == IsMulti(h, i)
  {
  }

  // ---- the internal use area ----

  // Area i lies behind the edited section at ho and is moved. For the internal use area a
  // block number is compared with a byte offset.
  predicate Moves(h: seq<byte>, ho: nat, i: nat)
    requires |h| == 8 && i < 5
  {
    Present(h, i) && (if i == INTERNAL then Blk(h, i) > ho else Start(h, i) > ho)
  }

  // Where the next area behind the internal use area starts, as the loop finds it among
  // the first k areas; without one, the low byte of the FRU size.
  function NextBlk(h: seq<byte>, size: nat, k: nat): nat
    requires |h| == 8 && k <= 5
  {
    if k == 0 then size % 0x100
    else
      var next := NextBlk(h, size, k - 1);
      if Seen(h, k - 1) && Blk(h, INTERNAL) < Blk(h, k - 1) < next then Blk(h, k - 1) else next
  }

  // The number of bytes moved is the number of blocks up to there.
  function InternalLength(h: seq<byte>, size: nat): int
    requires |h| == 8
  {
    NextBlk(h, size, FRU_AREAS_COUNT) - Blk(h, INTERNAL)
  }

  ghost predicate CanMoveInternal(orig: seq<byte>, room: nat, h: seq<byte>, size: nat, ho: nat, cnt: int) {
    && |h| == 8
    && (Moves(h, ho, INTERNAL) ==>
         var n := InternalLength(h, size);
         && 0 <= n && Start(h, INTERNAL) + n <= |orig|
         && 0 <= Blk(h, INTERNAL) + cnt && Start(h, INTERNAL) + 8 * cnt + n <= room)
  }

  ghost function MoveInternal(orig: seq<byte>, h: seq<byte>, size: nat, ho: nat, cnt: int, m: Moved): (r: Moved)
    requires |m.h| == 8 && CanMoveInternal(orig, |m.img|, h, size, ho, cnt)
    ensures |r.img| == |m.img| && |r.h| == 8 && r.last == m.last && r.end == m.end
  {
    if !Moves(h, ho, INTERNAL) then m
    else
      var from := Start(h, INTERNAL);
      m.(img := Splice(m.img, from + 8 * cnt, orig[from..from + InternalLength(h, size)]),
         h := m.h[1 + INTERNAL := (Blk(h, INTERNAL) + cnt) % 0x100])
  }

  // ---- header and erased tail ----

  function WithChecksum(h: seq<byte>): (r: seq<byte>)
    requires |h| == 8
    ensures |r| == 8 && forall j :: 0 <= j < 7 ==> r[j] == h[j]
  {
    h[7 := Complement(h[..7])]
  }

  // The bytes the last area gave up can be cleared when the section shrank.
  ghost predicate CanErase(m: Moved, cnt: int) {
    cnt < 0 ==> 0 <= m.end + 8 * cnt && m.end <= |m.img|
  }

  // Step 5 of the editor once the section is to change by cnt blocks.
  ghost function Finish(m: Moved, cnt: int): (r: Moved)
    requires |m.h| == 8 && 8 <= |m.img| && CanErase(m, cnt)
    ensures |r.img| == |m.img|
  {
    var h := WithChecksum(m.h);
    var img := Splice(m.img, 0, h);
    m.(h := h, img := if cnt < 0 then Splice(img, m.end + 8 * cnt, Zeros(-8 * cnt)) else img)
  }

  ghost predicate CanRelocate(orig: seq<byte>, img0: seq<byte>, h: seq<byte>, size: nat, ho: nat, cnt: int) {
    && CanMoveAll(orig, |img0|, h, ho, cnt) && CanMoveInternal(orig, |img0|, h, size, ho, cnt) && 8 <= |img0|
    && CanErase(MoveAreas(orig, ho, cnt, Moved(img0, h, 0, 0), FRU_AREAS_COUNT), cnt)
  }

  ghost function Relocate(orig: seq<byte>, img0: seq<byte>, h: seq<byte>, size: nat, ho: nat, cnt: int): (r: Moved)
    requires CanRelocate(orig, img0, h, size, ho, cnt)
    ensures |r.img| == |img0|
  {
    Finish(MoveInternal(orig, h, size, ho, cnt, MoveAreas(orig, ho, cnt, Moved(img0, h, 0, 0), FRU_AREAS_COUNT)), cnt)
  }
}
