// Where the blocs of build_fru_bloc start on a device that holds a record list.
module FruBlocRecords {
  import opened Bytes
  import opened FruBlocs
  import Multirecord

  // Reading at `at` and behind each record gives the headers of the list.
  ghost predicate ReadsList(read: RecordReader, at: nat, rs: seq<Multirecord.Record>) {
    Multirecord.RecordsOk(rs) && forall i :: 0 <= i < |rs| ==> ReadsAt(read, at, rs, i)
  }

  ghost predicate ReadsAt(read: RecordReader, at: nat, rs: seq<Multirecord.Record>, i: nat)
    requires Multirecord.RecordsOk(rs) && i < |rs|
  {
    var h := read(at + |Multirecord.Encode(rs[..i])|);
    && h.Some? && h.value.format == rs[i].format && h.value.len as int == |rs[i].data|
    && HeaderBytes(h.value) == Multirecord.Header(rs[i])
  }

  // The first i records and their headers end here.
  ghost function EndAfter(at: nat, rs: seq<Multirecord.Record>, i: nat): nat
    requires Multirecord.RecordsOk(rs) && i <= |rs|
  {
    at + |Multirecord.Encode(rs[..i])|
  }

  // The walk ends with record i: it is flagged as the last or has a bad header, or it
  // reaches the end of the device, or a word device has no even offset for the next.
  ghost predicate EndsAt(at: nat, rs: seq<Multirecord.Record>, size: nat, words: bool, i: nat)
    requires Multirecord.RecordsOk(rs) && i < |rs|
  {
    Multirecord.Stops(rs[i]) || EndAfter(at, rs, i + 1) >= size || (words && EndAfter(at, rs, i + 1) % 2 == 1)
  }

  // Behind record i, or one byte further if the next record was looked for at an odd
  // offset.
  ghost function WalkEnd(at: nat, rs: seq<Multirecord.Record>, size: nat, words: bool, i: nat): nat
    requires Multirecord.RecordsOk(rs) && i < |rs|
  {
    var end := EndAfter(at, rs, i + 1);
    if !Multirecord.Stops(rs[i]) && end < size && words && end % 2 == 1 then end + 1 else end
  }

  ghost function RecordStarts(at: nat, rs: seq<Multirecord.Record>, n: nat): (s: seq<nat>)
    requires Multirecord.RecordsOk(rs) && n <= |rs|
    ensures |s| == n
  {
    seq(n, i requires 0 <= i < n => EndAfter(at, rs, i))
  }

  // On a list of any length the walk adds a bloc for every record up to the one it ends
  // with, each where the records before it end.
  lemma {:induction false} WalkOnList(read: RecordReader, size: nat, words: bool, at: nat, rs: seq<Multirecord.Record>, k: nat)
    requires ReadsList(read, at, rs) && k < |rs| && at <= size && (words ==> at % 2 == 0)
    requires EndsAt(at, rs, size, words, k) && forall i :: 0 <= i < k ==> !EndsAt(at, rs, size, words, i)
    ensures MultiWalk(read, size, words, at) == Walk(RecordStarts(at, rs, k + 1), WalkEnd(at, rs, size, words, k))
    decreases k
  {
    hide ZeroSum, Multirecord.Header, HeaderBytes;
    assert ReadsAt(read, at, rs, 0) && rs[..0] == [] && Multirecord.Encode([]) == [];
    FirstEnds(at, rs);
    var next := EndAfter(at, rs, 1);
    if k > 0 {
      assert !EndsAt(at, rs, size, words, 0);
      forall i | 0 <= i < |rs[1..]| ensures ReadsAt(read, next, rs[1..], i) {
        assert ReadsAt(read, at, rs, i + 1);
        TailEnds(at, rs, i);
      }
      forall i | 0 <= i < k - 1 ensures !EndsAt(next, rs[1..], size, words, i) {
        TailEnds(at, rs, i + 1);
        assert !EndsAt(at, rs, size, words, i + 1);
      }
      TailEnds(at, rs, k);
      WalkOnList(read, size, words, next, rs[1..], k - 1);
      forall i | 0 <= i < k ensures RecordStarts(next, rs[1..], k)[i] == RecordStarts(at, rs, k + 1)[i + 1] {
        TailEnds(at, rs, i);
      }
      assert RecordStarts(at, rs, k + 1) == [at] + RecordStarts(next, rs[1..], k);
    } else {
      assert RecordStarts(at, rs, 1) == [at];
    }
  }

  lemma FirstEnds(at: nat, rs: seq<Multirecord.Record>)
    requires Multirecord.RecordsOk(rs) && rs != []
    ensures EndAfter(at, rs, 0) == at && EndAfter(at, rs, 1) == at + |rs[0].data| + 5
  {
    assert rs[..1][1..] == [];
  }

  lemma TailEnds(at: nat, rs: seq<Multirecord.Record>, i: nat)
    requires Multirecord.RecordsOk(rs) && rs != [] && i < |rs|
    ensures EndAfter(EndAfter(at, rs, 1), rs[1..], i) == EndAfter(at, rs, i + 1)
  {
    FirstEnds(at, rs);
    assert rs[..i + 1][1..] == rs[1..][..i];
  }

  // If it ends with a record because of that record, it ends where the size walk over the
  // same bytes does, which also says whether the header was good.
  lemma EndsWithSizeWalk(d: seq<byte>, at: nat, rs: seq<Multirecord.Record>, size: nat, words: bool, k: nat)
    requires Multirecord.RecordsOk(rs) && k < |rs| && Multirecord.Stops(rs[k])
    requires at + |Multirecord.Encode(rs)| <= |d| && d[at..at + |Multirecord.Encode(rs)|] == Multirecord.Encode(rs)
    requires forall i :: 0 <= i < k ==> !Multirecord.Stops(rs[i])
    ensures Multirecord.AdjustSize(d, at) == Some((WalkEnd(at, rs, size, words, k), ZeroSum(Multirecord.Header(rs[k]))))
  {
    Multirecord.WalkerOnRecords(d, at, rs, k);
    Multirecord.EncodeLength(rs[..k + 1]);
  }

  // ---- the whole list ----

  // One bloc for each present area, from the bytes of the common header.
  ghost function AreaBlocs(h: seq<byte>): seq<nat>
    requires |h| == 8
  {
    [0]
    + (if h[1] != 0 then [8 * h[1] as int] else [])
    + (if h[2] != 0 then [8 * h[2] as int] else [])
    + (if h[3] != 0 then [8 * h[3] as int] else [])
    + (if h[4] != 0 then [8 * h[4] as int] else [])
  }

  lemma AreasInHeaderOrder(h: seq<byte>)
    requires |h| == 8
    ensures AreaStarts(InfoOffsets(h)) == AreaBlocs(h)
  {
    var o := InfoOffsets(h);
    assert o[..3][..2] == o[..2] && o[..2][..1] == o[..1] && o[..1][..0] == [];
    assert AreaStarts(o[..1]) == [0] + if h[1] != 0 then [8 * h[1] as int] else [];
    assert AreaStarts(o[..2]) == AreaStarts(o[..1]) + if h[2] != 0 then [8 * h[2] as int] else [];
    assert AreaStarts(o[..3]) == AreaStarts(o[..2]) + if h[3] != 0 then [8 * h[3] as int] else [];
  }

  // The blocs of a device with a common header and, if the header says so, a record list:
  // the header, every present area in header order, every record up to the one the walk
  // ends with, and what remains behind it.
  lemma BlocsOfRecords(h: seq<byte>, read: RecordReader, size: nat, words: bool, rs: seq<Multirecord.Record>, k: nat)
    requires |h| == 8
    requires h[5] != 0 ==>
      var at := 8 * h[5] as int;
      && at <= size && ReadsList(read, at, rs) && k < |rs|
      && EndsAt(at, rs, size, words, k) && forall i :: 0 <= i < k ==> !EndsAt(at, rs, size, words, i)
    ensures BlocStarts(h, read, size, words) ==
      if h[5] == 0 then AreaBlocs(h)
      else
        var at := 8 * h[5] as int;
        var end := WalkEnd(at, rs, size, words, k);
        AreaBlocs(h) + (RecordStarts(at, rs, k + 1) + if end < size then [end] else [])
  {
    AreasInHeaderOrder(h);
    if h[5] != 0 {
      WalkOnList(read, size, words, 8 * h[5] as int, rs, k);
      var at := 8 * h[5] as int;
      var starts := RecordStarts(at, rs, k + 1);
      assert starts + [] == starts;
    }
  }
}
