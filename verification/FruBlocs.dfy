// The bloc list: build_fru_bloc in lib/ipmi_fru.c cuts a device into consecutive blocs.
module FruBlocs {
  import opened Bytes

  // The header of one multirecord as the device returned it.
  datatype RecordHeader = RecordHeader(kind: byte, format: byte, len: byte, recordSum: byte, headerSum: byte)

  function HeaderBytes(h: RecordHeader): seq<byte> {
    [h.kind, h.format, h.len, h.recordSum, h.headerSum]
  }

  // What reading five bytes at an offset gives: a header, or None when the read fails.
  type RecordReader = nat -> Option<RecordHeader>

  // The common header: version, offsets of the internal use, chassis, board, product and
  // multirecord areas in blocks of 8 bytes, pad, checksum.
  ghost predicate ValidHeader(reply: Option<seq<byte>>) {
    reply.Some? && |reply.value| == 8 && ZeroSum(reply.value) && reply.value[0] == 1
  }

  // ---- where blocs start ----

  // 0, then 8 * offset for every area that is present.
  function AreaStarts(offsets: seq<byte>): (s: seq<nat>)
    ensures |s| >= 1
  {
    if offsets == [] then [0]
    else
      var k := |offsets| - 1;
      AreaStarts(offsets[..k]) + if offsets[k] == 0 then [] else [8 * offsets[k] as int]
  }

  // The internal use, chassis, board and product offsets of a common header.
  function InfoOffsets(h: seq<byte>): (o: seq<byte>)
    requires |h| == 8
    ensures |o| == 4
  {
    h[1..5]
  }

  datatype Walk = Walk(starts: seq<nat>, end: nat)

  // read_fru_area refuses an offset behind the end of the device.
  function ReadHeader(read: RecordReader, size: nat, off: nat): Option<RecordHeader> {
    if off > size then None else read(off)
  }

  // The multirecord loop from off on: the starts it adds, and the offset it ends at.
  ghost function MultiWalk(read: RecordReader, size: nat, words: bool, off: nat): Walk
    decreases size - off
  {
    if words && off % 2 == 1 then Walk([], off + 1)
    else match ReadHeader(read, size, off)
      case None => Walk([], off)
      case Some(h) =>
        var next := off + h.len as int + 5;
        if !ZeroSum(HeaderBytes(h)) || h.format >= 0x80 || next >= size then Walk([off], next)
        else
          var w := MultiWalk(read, size, words, next);
          Walk([off] + w.starts, w.end)
  }

  // The blocs of the multirecord area and, if anything remains, of the space behind it.
  ghost function MultiStarts(read: RecordReader, size: nat, words: bool, off: nat): seq<nat> {
    var w := MultiWalk(read, size, words, off);
    if w.end < size then w.starts + [w.end] else w.starts
  }

  ghost function BlocStarts(h: seq<byte>, read: RecordReader, size: nat, words: bool): seq<nat>
    requires |h| == 8
  {
    if h[5] == 0 then AreaStarts(InfoOffsets(h))
    else AreaStarts(InfoOffsets(h)) + MultiStarts(read, size, words, 8 * h[5] as int)
  }

  // uint16_t subtraction.
  function Sub16(a: nat, b: nat): (d: nat)
    ensures d < 0x1_0000
  {
    (a - b) % 0x1_0000
  }

  // Each bloc reaches to the next start, the last one to the end of the device.
  function BlocSize(starts: seq<nat>, size: nat, i: nat): nat
    requires i < |starts|
  {
    Sub16(if i + 1 < |starts| then starts[i + 1] else size, starts[i])
  }

  // ---- the linked list ----

  class Bloc {
    var next: Bloc?
    var start: nat
    var size: nat
    ghost const pos: nat  // place in the list; keeps the nodes apart

    constructor (start: nat, size: nat, ghost pos: nat)
      ensures this.next == null && this.start == start && this.size == size && this.pos == pos
    {
      this.next := null;
      this.pos := pos;
      this.start := start;
      this.size := size;
    }
  }

  // The nodes in order, linked, with the given starts and the sizes that belong to them.
  ghost predicate Chain(nodes: seq<Bloc>, starts: seq<nat>, size: nat)
    reads nodes
  {
    |nodes| == |starts| >= 1 && forall i :: 0 <= i < |nodes| ==> NodeOk(nodes, starts, size, i)
  }

  ghost predicate NodeOk(nodes: seq<Bloc>, starts: seq<nat>, size: nat, i: nat)
    requires i < |nodes| == |starts|
    reads nodes
  {
    && nodes[i].pos == i
    && nodes[i].start == starts[i] && nodes[i].size == BlocSize(starts, size, i)
    && nodes[i].next == if i + 1 < |nodes| then nodes[i + 1] else null
  }

  // The list under construction: p_first and p_bloc, the bloc that is still the last.
  class BlocList {
    const size: nat
    var first: Bloc
    var last: Bloc
    ghost var nodes: seq<Bloc>
    ghost var starts: seq<nat>
    ghost var Repr: set<object>

    ghost predicate Valid()
      reads this, Repr
    {
      && this in Repr && (forall i :: 0 <= i < |nodes| ==> nodes[i] in Repr)
      && Chain(nodes, starts, size)
      && first == nodes[0] && last == nodes[|nodes| - 1]
    }

    // The common header's bloc, for the time being as long as the device.
    constructor (size: nat)
      ensures Valid() && fresh(Repr) && this.size == size && starts == [0]
    {
      this.size := size;
      var head := new Bloc(0, size % 0x1_0000, 0);
      first, last := head, head;
      nodes, starts := [head], [0];
      Repr := {this, head};
    }

    // Links a new bloc behind the last one, which now ends where the new one starts.
    method Append(start: nat)
      requires Valid()
      modifies Repr
      ensures Valid() && fresh(Repr - old(Repr)) && starts == old(starts) + [start]
    {
      assert NodeOk(nodes, starts, size, |nodes| - 1);
      var pNew := new Bloc(start, Sub16(size, start), |nodes|);
      last.next := pNew;
      last.size := Sub16(pNew.start, last.start);
      last := pNew;
      nodes, starts, Repr := nodes + [pNew], starts + [start], Repr + {pNew};
      forall i | 0 <= i < |nodes| ensures NodeOk(nodes, starts, size, i) {
        if i + 2 < |nodes| {
          assert old(NodeOk(nodes, starts, size, i)) && nodes[i] == old(nodes[i]) != old(last);
        }
      }
    }
  }

  // ipmi_csum over a header that was copied out of a reply.
  method HeaderCsum(h: seq<byte>) returns (c: byte)
    ensures c == 0 <==> ZeroSum(h)
  {
    var buffer := new byte[|h|](i requires 0 <= i < |h| => h[i]);
    assert buffer[0..|h|] == h;
    c := IpmiCsum(buffer, 0, |h|);
  }

  // One bloc for each of the four areas that is present.
  method AddAreas(list: BlocList, offsets: seq<byte>)
    requires list.Valid() && list.starts == [0]
    modifies list.Repr
    ensures list.Valid() && fresh(list.Repr - old(list.Repr)) && list.starts == AreaStarts(offsets)
  {
    for i := 0 to |offsets|
      invariant list.Valid() && fresh(list.Repr - old(list.Repr))
      invariant list.starts == AreaStarts(offsets[..i])
    {
      assert offsets[..i + 1][..i] == offsets[..i];
      if offsets[i] != 0 {
        list.Append(offsets[i] as int * 8);
      }
    }
    assert offsets[..|offsets|] == offsets;
  }

  // What the multirecord loop decides at an offset: add a bloc there, where to go on,
  // and whether to.
  datatype RecordStep = RecordStep(adds: bool, next: nat, more: bool)

  ghost function StepAt(read: RecordReader, size: nat, words: bool, off: nat): RecordStep {
    if words && off % 2 == 1 then RecordStep(false, off + 1, false)
    else match ReadHeader(read, size, off)
      case None => RecordStep(false, off, false)
      case Some(h) =>
        var next := off + h.len as int + 5;
        RecordStep(true, next, ZeroSum(HeaderBytes(h)) && h.format < 0x80 && next < size)
  }

  method DecideAt(read: RecordReader, size: nat, words: bool, off: nat) returns (adds: bool, next: nat, more: bool)
    ensures StepAt(read, size, words, off) == RecordStep(adds, next, more)
  {
    if words && off % 2 == 1 {
      return false, off + 1, false;
    }
    var rec := ReadHeader(read, size, off);
    if rec.None? {
      return false, off, false;
    }
    var c := HeaderCsum(HeaderBytes(rec.value));
    next := off + rec.value.len as int + 5;
    return true, next, c == 0 && rec.value.format < 0x80 && next < size;
  }

  // The multirecord loop.
  method AddRecordBlocs(list: BlocList, multi: nat, words: bool, read: RecordReader) returns (off: nat)
    requires list.Valid()
    modifies list.Repr
    ensures list.Valid() && fresh(list.Repr - old(list.Repr))
    ensures var w := MultiWalk(read, list.size, words, multi);
      list.starts == old(list.starts) + w.starts && off == w.end
  {
    off := multi;
    var more := true;
    ghost var w := MultiWalk(read, list.size, words, multi);
    ghost var target := list.starts + w.starts;
    while more
      invariant list.Valid() && fresh(list.Repr - old(list.Repr))
      invariant Remains(list.starts, Rest(read, list.size, words, off, more), target, w.end)
      decreases more, list.size - off
    {
      var adds, next;
      WalkStep(list.starts, read, list.size, words, off, target, w.end);
      adds, next, more := DecideAt(read, list.size, words, off);
      if adds {
        list.Append(off);
      }
      off := next;
    }
  }

  // What is left of the walk at off, or nothing once the loop has ended.
  ghost function Rest(read: RecordReader, size: nat, words: bool, off: nat, more: bool): Walk {
    if more then MultiWalk(read, size, words, off) else Walk([], off)
  }

  // The starts so far and the rest of the walk make up the target.
  ghost predicate Remains(starts: seq<nat>, rest: Walk, target: seq<nat>, end: nat) {
    starts + rest.starts == target && rest.end == end
  }

  lemma WalkStep(starts: seq<nat>, read: RecordReader, size: nat, words: bool, off: nat, target: seq<nat>, end: nat)
    requires Remains(starts, MultiWalk(read, size, words, off), target, end)
    ensures var d := StepAt(read, size, words, off);
      && Remains(if d.adds then starts + [off] else starts, Rest(read, size, words, d.next, d.more), target, end)
      && (d.more ==> off < d.next < size)
  {
    var d := StepAt(read, size, words, off);
    if d.adds {
      assert starts + ([off] + Rest(read, size, words, d.next, d.more).starts)
          == (starts + [off]) + Rest(read, size, words, d.next, d.more).starts;
    }
  }

  // The record blocs, then the bloc for the remaining space.
  method AddMultirecords(list: BlocList, multi: nat, words: bool, read: RecordReader)
    requires list.Valid()
    modifies list.Repr
    ensures list.Valid() && fresh(list.Repr - old(list.Repr))
    ensures list.starts == old(list.starts) + MultiStarts(read, list.size, words, multi)
  {
    var off := AddRecordBlocs(list, multi, words, read);
    ghost var all := MultiStarts(read, list.size, words, multi);
    if list.size > off {
      list.Append(off);
      assert list.starts == old(list.starts) + all;
    }
  }

  // Null when there is no usable common header, otherwise the first bloc of the chain.
  method BuildFruBloc(size: nat, words: bool, reply: Option<seq<byte>>, read: RecordReader)
    returns (first: Bloc?, ghost nodes: seq<Bloc>, ghost starts: seq<nat>)
    requires reply.Some? ==> |reply.value| == 8
    ensures first == null <==> !ValidHeader(reply)
    ensures first == null ==> nodes == []
    ensures first != null ==> starts == BlocStarts(reply.value, read, size, words)
    ensures first != null ==> Chain(nodes, starts, size) && first == nodes[0]
    ensures forall i :: 0 <= i < |nodes| ==> fresh(nodes[i])
  {
    first, nodes, starts := null, [], [];
    if reply.None? {
      return;
    }
    var h := reply.value;
    var sum := HeaderCsum(h);
    if sum != 0 || h[0] != 1 {
      return;
    }
    var list := new BlocList(size);
    AddAreas(list, InfoOffsets(h));
    ghost var areas := AreaStarts(InfoOffsets(h));
    assert list.starts == areas;
    if h[5] != 0 {
      AddMultirecords(list, 8 * h[5] as int, words, read);
      assert list.starts == areas + MultiStarts(read, size, words, 8 * h[5] as int);
    }
    assert list.starts == BlocStarts(h, read, size, words);
    first, nodes, starts := list.first, list.nodes, list.starts;
    assert forall i :: 0 <= i < |nodes| ==> nodes[i] in list.Repr;
  }

  // ---- when the blocs tile the device ----

  // Consecutive blocs from 0 to size, no gap and no overlap.
  ghost predicate Tiles(starts: seq<nat>, size: nat) {
    && |starts| >= 1 && starts[0] == 0
    && forall i :: 0 <= i < |starts| ==> ReachesNext(starts, size, i)
  }

  // Bloc i ends where the next one starts, the last one at the end of the device.
  ghost predicate ReachesNext(starts: seq<nat>, size: nat, i: nat)
    requires i < |starts|
  {
    starts[i] + BlocSize(starts, size, i) == if i + 1 < |starts| then starts[i + 1] else size
  }

  ghost predicate NonDecreasing(s: seq<nat>) {
    forall i, j :: 0 <= i < j < |s| ==> s[i] <= s[j]
  }

  // Sizes have sixteen bits, so a list tiles exactly when its starts are in order.
  lemma TilesIffOrdered(starts: seq<nat>, size: nat)
    requires size < 0x1_0000 && |starts| >= 1 && starts[0] == 0
    requires forall i :: 0 <= i < |starts| ==> starts[i] < 0x1_0000
    ensures Tiles(starts, size) <==> NonDecreasing(starts) && starts[|starts| - 1] <= size
  {
    if Tiles(starts, size) {
      forall i, j | 0 <= i < j < |starts| ensures starts[i] <= starts[j] {
        StepsUp(starts, size, i, j);
      }
      var n := |starts| - 1;
      assert ReachesNext(starts, size, n);
    }
    if NonDecreasing(starts) && starts[|starts| - 1] <= size {
      forall i | 0 <= i < |starts|
        ensures ReachesNext(starts, size, i)
      {
        assert i + 1 < |starts| ==> starts[i] <= starts[i + 1];
      }
    }
  }

  lemma {:induction false} StepsUp(starts: seq<nat>, size: nat, i: nat, j: nat)
    requires Tiles(starts, size) && i <= j < |starts|
    ensures starts[i] <= starts[j]
    decreases j
  {
    if i < j {
      StepsUp(starts, size, i, j - 1);
      assert ReachesNext(starts, size, j - 1);
    }
  }

  lemma {:induction false} MultiWalkOrdered(read: RecordReader, size: nat, words: bool, off: nat)
    requires off % 2 == 0 || off < size
    ensures var w := MultiWalk(read, size, words, off);
      && NonDecreasing(w.starts + [w.end])
      && (forall i :: 0 <= i < |w.starts| ==> off <= w.starts[i] <= size)
      && (off % 2 == 0 || !words ==> (w.starts != [] <==> ReadHeader(read, size, off).Some?))
      && (off % 2 == 0 || !words ==> (w.starts != [] ==> w.starts[0] == off) && (w.starts == [] ==> w.end == off))
      && off <= w.end
    decreases size - off
  {
    hide ZeroSum, HeaderBytes, NonDecreasing;
    var w := MultiWalk(read, size, words, off);
    if !(words && off % 2 == 1) && ReadHeader(read, size, off).Some? {
      var h := ReadHeader(read, size, off).value;
      var next := off + h.len as int + 5;
      if ZeroSum(HeaderBytes(h)) && h.format < 0x80 && next < size {
        MultiWalkOrdered(read, size, words, next);
        var v := MultiWalk(read, size, words, next);
        assert w.starts + [w.end] == [off] + (v.starts + [v.end]);
        assert forall i :: 0 <= i < |v.starts| ==> w.starts[i + 1] == v.starts[i];
        OrderedCons(off, v.starts + [v.end]);
      } else {
        OrderedPair(off, next);
        assert w.starts + [w.end] == [off] + [next];
      }
    } else {
      OrderedCons(w.end, []);
      assert w.starts + [w.end] == [w.end] + [];
    }
  }

  lemma OrderedCons(x: nat, s: seq<nat>)
    requires NonDecreasing(s) && (s != [] ==> x <= s[0])
    ensures NonDecreasing([x] + s)
  {
  }

  lemma OrderedPair(x: nat, y: nat)
    requires x <= y
    ensures NonDecreasing([x] + [y])
  {
  }

  ghost function LastArea(h: seq<byte>): nat
    requires |h| == 8
  {
    var s := AreaStarts(InfoOffsets(h));
    s[|s| - 1]
  }

  // The multirecord area adds a bloc unless it starts behind the device, or at its end
  // with nothing to read.
  ghost predicate MultiAdds(h: seq<byte>, read: RecordReader, size: nat)
    requires |h| == 8
  {
    h[5] != 0 && (8 * h[5] as int < size || (8 * h[5] as int == size && read(size).Some?))
  }

  // The order the header must have: present areas in header order, inside the device.
  ghost predicate HeaderOrdered(h: seq<byte>, read: RecordReader, size: nat)
    requires |h| == 8
  {
    NonDecreasing(AreaStarts(InfoOffsets(h))) && LastArea(h) <= size && (MultiAdds(h, read, size) ==> LastArea(h) <= 8 * h[5] as int)
  }

  lemma {:induction false} AreaStartsInRange(offsets: seq<byte>)
    ensures var s := AreaStarts(offsets);
      s[0] == 0 && forall i :: 0 <= i < |s| ==> s[i] < 0x1_0000
  {
    if offsets != [] { AreaStartsInRange(offsets[..|offsets| - 1]); }
  }

  // For every header, device size up to 65535 and multirecord content: the bloc list is
  // an exact tiling of the device if and only if the header is ordered.
  lemma TilesIffHeaderOrdered(h: seq<byte>, read: RecordReader, size: nat, words: bool)
    requires |h| == 8 && size < 0x1_0000
    ensures Tiles(BlocStarts(h, read, size, words), size) <==> HeaderOrdered(h, read, size)
  {
    var areas := AreaStarts(InfoOffsets(h));
    AreaStartsInRange(InfoOffsets(h));
    if h[5] == 0 {
      TilesIffOrdered(areas, size);
    } else {
      MultiTail(h, read, size, words);
      JoinTiles(areas, MultiStarts(read, size, words, 8 * h[5] as int), size);
    }
  }

  lemma JoinTiles(a: seq<nat>, b: seq<nat>, size: nat)
    requires |a| >= 1 && a[0] == 0 && size < 0x1_0000
    requires forall i :: 0 <= i < |a| ==> a[i] < 0x1_0000
    requires forall i :: 0 <= i < |b| ==> b[i] <= size
    requires NonDecreasing(b)
    ensures Tiles(a + b, size) <==>
      NonDecreasing(a) && a[|a| - 1] <= size && (b != [] ==> a[|a| - 1] <= b[0])
  {
    TilesIffOrdered(a + b, size);
    JoinOrdered(a, b);
    if b != [] {
      assert (a + b)[|a + b| - 1] == b[|b| - 1] && b[0] <= b[|b| - 1] <= size;
    } else {
      assert a + b == a;
    }
  }

  // The blocs added behind the areas: in order, inside the device, the first one where
  // the header puts the multirecord area.
  lemma MultiTail(h: seq<byte>, read: RecordReader, size: nat, words: bool)
    requires |h| == 8 && h[5] != 0
    ensures var tail := MultiStarts(read, size, words, 8 * h[5] as int);
      && NonDecreasing(tail)
      && (forall i :: 0 <= i < |tail| ==> tail[i] <= size)
      && (tail != [] <==> MultiAdds(h, read, size))
      && (tail != [] ==> tail[0] == 8 * h[5] as int)
  {
    var off := 8 * h[5] as int;
    var w := MultiWalk(read, size, words, off);
    MultiWalkOrdered(read, size, words, off);
    var tail := MultiStarts(read, size, words, off);
    assert forall i :: 0 <= i < |tail| ==> tail[i] == (w.starts + [w.end])[i];
  }

  lemma JoinOrdered(a: seq<nat>, b: seq<nat>)
    requires NonDecreasing(b) && |a| >= 1
    ensures NonDecreasing(a + b) <==> NonDecreasing(a) && (b != [] ==> a[|a| - 1] <= b[0])
  {
    var s := a + b;
    assert forall i :: 0 <= i < |s| ==> s[i] == if i < |a| then a[i] else b[i - |a|];
    if NonDecreasing(s) {
      assert forall i, j :: 0 <= i < j < |a| ==> s[i] <= s[j];
      if b != [] { assert s[|a| - 1] <= s[|a|]; }
    }
  }

  // ---- word devices ----

  lemma {:induction false} AreaStartsEven(offsets: seq<byte>)
    ensures forall i :: 0 <= i < |AreaStarts(offsets)| ==> AreaStarts(offsets)[i] % 2 == 0
  {
    if offsets != [] { AreaStartsEven(offsets[..|offsets| - 1]); }
  }

  lemma {:induction false} MultiWalkEven(read: RecordReader, size: nat, off: nat)
    ensures forall i :: 0 <= i < |MultiWalk(read, size, true, off).starts| ==> MultiWalk(read, size, true, off).starts[i] % 2 == 0
    decreases size - off
  {
    var d := StepAt(read, size, true, off);
    if d.more {
      MultiWalkEven(read, size, d.next);
    }
  }

  // The alignment check covers every bloc but the one behind the last record: on a word
  // device only the remaining space can start at an odd offset.
  lemma OnlyRemainderMayBeOdd(h: seq<byte>, read: RecordReader, size: nat, i: nat)
    requires |h| == 8 && i < |BlocStarts(h, read, size, true)|
    ensures BlocStarts(h, read, size, true)[i] % 2 == 1 ==>
      h[5] != 0 && BlocStarts(h, read, size, true)[i] == MultiWalk(read, size, true, 8 * h[5] as int).end < size
  {
    AreaStartsEven(InfoOffsets(h));
    if h[5] != 0 {
      MultiWalkEven(read, size, 8 * h[5] as int);
    }
  }
}
