// The multirecord area: the size walker and the checksum repair of lib/ipmi_fru.c.
module Multirecord {
  import opened Bytes

  const HEADER_SIZE := 5

  // A stored record; the two checksum bytes are data like any other and may be wrong.
  datatype Record = Record(kind: byte, format: byte, data: seq<byte>, recordSum: byte, headerSum: byte)

  ghost predicate RecordOk(r: Record) {
    |r.data| < 256
  }

  function Header(r: Record): (h: seq<byte>)
    requires |r.data| < 256
    ensures |h| == HEADER_SIZE
  {
    [r.kind, r.format, |r.data|, r.recordSum, r.headerSum]
  }

  predicate EndOfList(format: byte) {
    format >= 0x80
  }

  // The flag is the upper bit of the format.
  lemma LastFlag(format: byte)
    ensures EndOfList(format) <==> format / 0x80 == 1
  {
  }

  ghost predicate RecordsOk(rs: seq<Record>) {
    forall i :: 0 <= i < |rs| ==> RecordOk(rs[i])
  }

  function Encode(rs: seq<Record>): seq<byte>
    requires RecordsOk(rs)
  {
    if rs == [] then [] else Header(rs[0]) + rs[0].data + Encode(rs[1..])
  }

  // ---- ipmi_fru_get_adjust_size_from_buffer ----

  // The walk from count on: the size and whether every header summed to zero, or None
  // when the walk would leave the buffer.
  ghost function AdjustSize(d: seq<byte>, count: nat): Option<(nat, bool)>
    decreases |d| - count
  {
    if count + HEADER_SIZE > |d| then None
    else
      var next := count + d[count + 2] as int + HEADER_SIZE;
      if !ZeroSum(d[count..count + HEADER_SIZE]) then Some((next, false))
      else if EndOfList(d[count + 1]) then Some((next, true))
      else AdjustSize(d, next)
  }

  // count has sixteen bits, so the buffer is one a FRU device can hold.
  method GetAdjustSizeFromBuffer(d: array<byte>) returns (status: int, size: nat)
    requires d.Length < 0x1_0000
    requires AdjustSize(d[..], 0).Some?
    ensures size == AdjustSize(d[..], 0).value.0 % 0x1_0000
    ensures status == if AdjustSize(d[..], 0).value.1 then 0 else -1
  {
    status := 0;
    var count, more := 0, true;
    ghost var walked := 0;
    while more
      invariant more ==> status == 0 && count == walked && AdjustSize(d[..], count) == AdjustSize(d[..], 0)
      invariant !more ==> AdjustSize(d[..], 0) == Some((walked, status == 0)) && count == walked % 0x1_0000
      invariant status == 0 || status == -1
      decreases more, d.Length - walked
    {
      var checksum := SumBytes(d, count, HEADER_SIZE);
      if checksum != 0 {
        status := -1;
      }
      more := d[count + 1] < 0x80 && status == 0;
      walked := count + d[count + 2] as int + HEADER_SIZE;
      count := (count + d[count + 2] as int + HEADER_SIZE) % 0x1_0000;
    }
    size := count;
  }

  // The record that ends the walk: the first whose header does not sum to zero or that
  // is flagged as the last.
  ghost predicate Stops(r: Record)
    requires RecordOk(r)
  {
    !ZeroSum(Header(r)) || EndOfList(r.format)
  }

  function TotalSize(rs: seq<Record>): nat {
    if rs == [] then 0 else |rs[0].data| + HEADER_SIZE + TotalSize(rs[1..])
  }

  lemma {:induction false} EncodeLength(rs: seq<Record>)
    requires RecordsOk(rs)
    ensures |Encode(rs)| == TotalSize(rs)
  {
    if rs != [] { EncodeLength(rs[1..]); }
  }

  // On an encoded record list (and whatever follows it) the walker returns the total of
  // length + 5 up to and including the record that stops it, and it fails exactly when
  // that record's header does not sum to zero.
  lemma {:induction false} WalkerOnRecords(d: seq<byte>, at: nat, rs: seq<Record>, k: nat)
    requires RecordsOk(rs) && k < |rs|
    requires at + |Encode(rs)| <= |d| && d[at..at + |Encode(rs)|] == Encode(rs)
    requires Stops(rs[k]) && forall i :: 0 <= i < k ==> !Stops(rs[i])
    ensures AdjustSize(d, at) == Some((at + TotalSize(rs[..k + 1]), ZeroSum(Header(rs[k]))))
    decreases k
  {
    hide ZeroSum, EndOfList, Header;
    HeaderAt(d, at, rs[0], Encode(rs[1..]));
    if k == 0 {
      assert rs[..1][1..] == [];
    } else {
      WalkerOnRecords(d, at + HEADER_SIZE + |rs[0].data|, rs[1..], k - 1);
      assert rs[..k + 1][1..] == rs[1..][..k];
    }
  }

  lemma HeaderAt(d: seq<byte>, at: nat, r: Record, rest: seq<byte>)
    requires RecordOk(r)
    requires at + |Header(r) + r.data + rest| <= |d|
    requires d[at..at + |Header(r) + r.data + rest|] == Header(r) + r.data + rest
    ensures d[at..at + HEADER_SIZE] == Header(r) && d[at + 1] == r.format && d[at + 2] == |r.data|
    ensures var next := at + HEADER_SIZE + |r.data|; d[next..next + |rest|] == rest
  {
    var w := d[at..at + |Header(r) + r.data + rest|];
    assert forall i :: 0 <= i < |w| ==> d[at + i] == w[i];
    assert d[at + 1] == w[1] == Header(r)[1] && d[at + 2] == w[2] == Header(r)[2];
    assert d[at..at + HEADER_SIZE] == w[..HEADER_SIZE] == Header(r);
    var n := HEADER_SIZE + |r.data|;
    assert d[at + n..at + n + |rest|] == w[n..] == rest;
  }

  // ---- checksum repair after an edit ----

  function WithSums(kind: byte, format: byte, data: seq<byte>): (r: Record)
    requires |data| < 256
    ensures |r.data| < 256
  {
    var rsum := Complement(data);
    Record(kind, format, data, rsum, Complement([kind, format, |data|, rsum]))
  }

  // The buffer after the repair of the record whose header starts at h.
  function Repaired(d: seq<byte>, h: nat, start: nat, length: nat): (r: seq<byte>)
    requires h + HEADER_SIZE <= |d| && start + length <= |d|
    ensures |r| == |d|
  {
    var r := d[h + 3 := Complement(d[start..start + length])];
    r[h + 4 := Complement(r[h..h + 4])]
  }

  // The tail of ipmi_fru_picmg_ext_edit: h is the record's header, start..start + length its data.
  method RepairChecksums(d: array<byte>, h: nat, start: nat, length: nat)
    requires h + HEADER_SIZE <= d.Length && start + length <= d.Length
    modifies d
    ensures d[..] == Repaired(old(d[..]), h, start, length)
    ensures forall i :: 0 <= i < d.Length && i != h + 3 && i != h + 4 ==> d[i] == old(d[i])
    ensures ZeroSum(d[h..h + 5])
    ensures h + 5 <= start ==> ZeroSum(d[start..start + length] + [d[h + 3]])
  {
    RepairedSums(d[..], h, start, length);
    var recordChecksum: nat := SumBytes(d, start, length);
    d[h + 3] := (255 - recordChecksum + 1) % 256;
    var headerChecksum: nat := SumBytes(d, h, HEADER_SIZE - 1);
    d[h + 4] := (255 - headerChecksum + 1) % 256;
  }

  // Behind its header a record's data, with byte 3 of the header, sums to zero, and so do
  // the five bytes of the header.
  lemma RepairedSums(d: seq<byte>, h: nat, start: nat, length: nat)
    requires h + HEADER_SIZE <= |d| && start + length <= |d|
    ensures var r := Repaired(d, h, start, length);
      && ZeroSum(r[h..h + 5])
      && (h + 5 <= start ==> ZeroSum(r[start..start + length] + [r[h + 3]]))
  {
    var r := Repaired(d, h, start, length);
    var r1 := d[h + 3 := Complement(d[start..start + length])];
    ComplementCloses(r1[h..h + 4], r[h + 4]);
    assert r[h..h + 5] == r1[h..h + 4] + [r[h + 4]];
    if h + 5 <= start {
      ComplementCloses(d[start..start + length], r[h + 3]);
      assert r[start..start + length] == d[start..start + length];
    }
  }

  // A record with the repaired checksums sums to zero in both of its checked ranges.
  lemma WithSumsIsValid(kind: byte, format: byte, data: seq<byte>)
    requires |data| < 256
    ensures var r := WithSums(kind, format, data);
      ZeroSum(Header(r)) && ZeroSum(data + [r.recordSum])
  {
    var r := WithSums(kind, format, data);
    ComplementCloses(data, r.recordSum);
    ComplementCloses([kind, format, |data|, r.recordSum], r.headerSum);
    assert Header(r) == [kind, format, |data|, r.recordSum] + [r.headerSum];
  }

  lemma {:induction false} EncodeSplit(rs: seq<Record>, k: nat)
    requires RecordsOk(rs) && k < |rs|
    ensures RecordsOk(rs[..k]) && RecordsOk(rs[k + 1..])
    ensures Encode(rs) == Encode(rs[..k]) + Header(rs[k]) + rs[k].data + Encode(rs[k + 1..])
  {
    if k > 0 {
      EncodeSplit(rs[1..], k - 1);
      assert rs[1..][..k - 1] == rs[..k][1..];
      assert rs[1..][k..] == rs[k + 1..];
    }
  }

  // Repairing the k-th record of an area after its data was edited in place gives the
  // encoding of the list with just that record's two checksums renewed.
  lemma RepairRenewsRecord(rs: seq<Record>, k: nat)
    requires RecordsOk(rs) && k < |rs|
    ensures RecordsOk(rs[..k]) && |Encode(rs[..k])| + HEADER_SIZE + |rs[k].data| <= |Encode(rs)|
    ensures var h := |Encode(rs[..k])|;
      Repaired(Encode(rs), h, h + HEADER_SIZE, |rs[k].data|)
      == Encode(rs[k := WithSums(rs[k].kind, rs[k].format, rs[k].data)])
  {
    var r := rs[k];
    var n := WithSums(r.kind, r.format, r.data);
    var rs' := rs[k := n];
    EncodeSplit(rs, k);
    EncodeSplit(rs', k);
    assert rs'[..k] == rs[..k] && rs'[k + 1..] == rs[k + 1..];
    var a, z, h := Encode(rs[..k]), Encode(rs[k + 1..]), |Encode(rs[..k])|;
    RepairOne(a, r, z);
  }

  lemma RepairOne(a: seq<byte>, r: Record, z: seq<byte>)
    requires RecordOk(r)
    ensures Repaired(a + Header(r) + r.data + z, |a|, |a| + HEADER_SIZE, |r.data|)
         == a + Header(WithSums(r.kind, r.format, r.data)) + r.data + z
  {
    var d, n, h := a + Header(r) + r.data + z, WithSums(r.kind, r.format, r.data), |a|;
    assert d[h + HEADER_SIZE..h + HEADER_SIZE + |r.data|] == r.data;
    var d1 := d[h + 3 := n.recordSum];
    assert d1[h..h + 4] == [r.kind, r.format, |r.data|, n.recordSum];
  }

  // After the repair the walker accepts the edited record again: same size, no failure,
  // as long as every other header up to the last record is good.
  lemma RepairedAreaIsAccepted(rs: seq<Record>, k: nat, last: nat)
    requires RecordsOk(rs) && k <= last < |rs|
    requires EndOfList(rs[last].format) && forall i :: 0 <= i < last ==> !EndOfList(rs[i].format)
    requires forall i :: 0 <= i <= last && i != k ==> ZeroSum(Header(rs[i]))
    ensures RecordsOk(rs[..k]) && |Encode(rs[..k])| + HEADER_SIZE + |rs[k].data| <= |Encode(rs)|
    ensures var h := |Encode(rs[..k])|;
      AdjustSize(Repaired(Encode(rs), h, h + HEADER_SIZE, |rs[k].data|), 0) == Some((TotalSize(rs[..last + 1]), true))
  {
    RepairRenewsRecord(rs, k);
    WithSumsIsValid(rs[k].kind, rs[k].format, rs[k].data);
    var rs' := rs[k := WithSums(rs[k].kind, rs[k].format, rs[k].data)];
    assert Encode(rs')[0..0 + |Encode(rs')|] == Encode(rs');
    WalkerOnRecords(Encode(rs'), 0, rs', last);
    SameTotal(rs[..last + 1], rs'[..last + 1]);
  }

  lemma {:induction false} SameTotal(a: seq<Record>, b: seq<Record>)
    requires |a| == |b| && forall i :: 0 <= i < |a| ==> |a[i].data| == |b[i].data|
    ensures TotalSize(a) == TotalSize(b)
  {
    if a != [] {
      SameTotal(a[1..], b[1..]);
    }
  }
}
