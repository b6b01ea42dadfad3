// The read loop of ipmi_spd_print_fru in lib/dimm_spd.c, a reader that ignores whether the
// device is addressed by words.
module SpdRead {
  import opened Bytes
  import opened FruDevice
  import opened FruReadRun
  import opened FruRead

  const FRU_DATA_RQST_SIZE := 16

  // The address a device makes of a byte offset sent as it is.
  function SpdAddress(words: bool, offset: nat): nat {
    if words then 2 * offset else offset
  }

  function SpdFetch(mem: seq<byte>, words: bool, size: nat, script: seq<ReadAnswer>, offset: nat, served: nat): (r: Fetched)
    requires offset <= size
    ensures r.Got? ==> offset + r.got <= size
  {
    Judge(Respond(mem, SpdAddress(words, offset), AnswerAt(script, served)), false, size - offset)
  }

  // The bytes of a usable reply.
  function SpdPiece(mem: seq<byte>, words: bool, size: nat, script: seq<ReadAnswer>, offset: nat, served: nat): (p: seq<byte>)
    requires offset <= size && SpdFetch(mem, words, size, script, offset, served).Got?
    ensures |p| == SpdFetch(mem, words, size, script, offset, served).got
    ensures var at := SpdAddress(words, offset); p != [] ==> at + |p| <= |mem| && p == mem[at..at + |p|]
  {
    var payload := Respond(mem, SpdAddress(words, offset), AnswerAt(script, served)).payload;
    var n := SpdFetch(mem, words, size, script, offset, served).got;
    assert n <= |payload|;
    payload[..n]
  }

  // All bytes the loop stores from offset on; it stops at the first answer that brings
  // nothing.
  function SpdRun(mem: seq<byte>, words: bool, size: nat, script: seq<ReadAnswer>, offset: nat, served: nat): (s: seq<byte>)
    requires offset <= size
    ensures offset + |s| <= size
    decreases size - offset
  {
    var r := SpdFetch(mem, words, size, script, offset, served);
    if !r.Got? || r.got == 0 then []
    else
      var p := SpdPiece(mem, words, size, script, offset, served);
      p + if offset + r.got == size then [] else SpdRun(mem, words, size, script, offset + r.got, served + 1)
  }

  // The whole read into a cleared buffer of `size` bytes. It always asks for 16 bytes, and
  // the result is true when everything was read.
  method ReadSpd(dev: ReadDevice, size: nat, spdData: array<byte>) returns (ok: bool)
    requires dev.served <= |dev.script|
    requires 1 <= size < 0x1_0000 && spdData.Length == size
    modifies dev, spdData
    ensures var s := SpdRun(dev.mem, dev.words, size, dev.script, 0, old(dev.served));
      spdData[..] == s + Zeros(size - |s|) && (ok <==> |s| == size)
    ensures |old(dev.asked)| < |dev.asked| && dev.asked[..|old(dev.asked)|] == old(dev.asked)
    ensures forall k :: |old(dev.asked)| <= k < |dev.asked| ==> dev.asked[k].1 == 16
  {
    hide SpdRun, Splice, Zeros;
    ghost var asked0 := dev.asked;
    Memzero(spdData, 0, size);
    var offset, more := 0, true;
    ghost var whole, done: seq<byte> := SpdRun(dev.mem, dev.words, size, dev.script, 0, dev.served), [];
    while more
      invariant dev.served <= |dev.script| && offset == |done| <= size
      invariant more <==> offset < size
      invariant spdData[..] == done + Zeros(size - offset)
      invariant |asked0| <= |dev.asked| && dev.asked[..|asked0|] == asked0 && (offset > 0 ==> |asked0| < |dev.asked|)
      invariant forall k :: |asked0| <= k < |dev.asked| ==> dev.asked[k].1 == 16
      invariant whole == if more then done + SpdRun(dev.mem, dev.words, size, dev.script, offset, dev.served) else done
      decreases size - offset
    {
      var len; ghost var p;
      len, p := SpdRequest(dev, size, offset, spdData, done);
      if len == 0 {
        SpdStops(done);
        return false;
      }
      SpdJoins(done, p, if offset + len == size then [] else SpdRun(dev.mem, dev.words, size, dev.script, offset + len, dev.served));
      done, offset := done + p, offset + len;
      more := offset < size;
    }
    ok := true;
  }

  // One request and the copy of its reply; 0 when it brings nothing usable.
  method SpdRequest(dev: ReadDevice, size: nat, offset: nat, spdData: array<byte>, ghost done: seq<byte>) returns (len: nat, ghost p: seq<byte>)
    requires dev.served <= |dev.script| && |done| == offset < size < 0x1_0000 && spdData.Length == size
    requires spdData[..] == done + Zeros(size - offset)
    modifies dev, spdData
    ensures dev.served <= |dev.script| && len == |p| <= size - offset
    ensures dev.asked == old(dev.asked) + [(SpdAddress(dev.words, offset), 16)]
    ensures spdData[..] == (done + p) + Zeros(size - offset - len)
    ensures SpdRun(dev.mem, dev.words, size, dev.script, offset, old(dev.served))
      == if len == 0 then [] else p + if offset + len == size then [] else SpdRun(dev.mem, dev.words, size, dev.script, offset + len, dev.served)
  {
    hide SpdRun, Respond, Splice, Zeros, SpdAddress;
    var low, high := offset % 0x100, offset / 0x100 % 0x100;
    SpdAddressed(dev.words, offset);
    SpdStep(dev.mem, dev.words, size, dev.script, offset, dev.served);
    var rsp := dev.GetFruData(low, high, FRU_DATA_RQST_SIZE);
    len, p := 0, [];
    SpdStops(done);
    if rsp.Data? && rsp.dataLen >= 1 {
      len := rsp.count;
      if len == 0 || len > rsp.dataLen - 1 || len > size - offset {
        len := 0;
      } else {
        p := rsp.payload[..len];
        SpdStored(done, p, size);
        Store(spdData, offset, rsp.payload, len);
      }
    }
  }

  lemma SpdStored(done: seq<byte>, p: seq<byte>, size: nat)
    requires |done| + |p| <= size
    ensures Splice(done + Zeros(size - |done|), |done|, p) == (done + p) + Zeros(size - |done| - |p|)
  {
  }

  lemma SpdJoins(done: seq<byte>, p: seq<byte>, rest: seq<byte>)
    ensures done + (p + rest) == (done + p) + rest && (done + p) + [] == done + p
  {
  }

  lemma SpdStops(done: seq<byte>)
    ensures done + [] == done
  {
  }

  // One request of the loop, seen from the reply.
  lemma SpdStep(mem: seq<byte>, words: bool, size: nat, script: seq<ReadAnswer>, offset: nat, served: nat)
    requires offset < size
    ensures var r, s := Respond(mem, SpdAddress(words, offset), AnswerAt(script, served)), SpdRun(mem, words, size, script, offset, served);
      if !r.Data? || r.dataLen < 1 || r.count == 0 || r.count > r.dataLen - 1 || r.count > size - offset then s == []
      else
        && served < |script| && r.count <= |r.payload|
        && s == r.payload[..r.count] + if offset + r.count == size then [] else SpdRun(mem, words, size, script, offset + r.count, served + 1)
  {
    hide SpdFetch, SpdPiece, Respond, AnswerAt, SpdAddress;
    SpdJudged(mem, words, size, script, offset, served);
  }

  lemma SpdJudged(mem: seq<byte>, words: bool, size: nat, script: seq<ReadAnswer>, offset: nat, served: nat)
    requires offset < size
    ensures var r, f := Respond(mem, SpdAddress(words, offset), AnswerAt(script, served)), SpdFetch(mem, words, size, script, offset, served);
      if !r.Data? || r.dataLen < 1 || r.count == 0 || r.count > r.dataLen - 1 || r.count > size - offset then !f.Got? || f.got == 0
      else f == Got(r.count) && served < |script| && r.count <= |r.payload|
           && SpdPiece(mem, words, size, script, offset, served) == r.payload[..r.count]
  {
    hide SpdAddress, TrueBytes;
  }

  lemma SpdAddressed(words: bool, offset: nat)
    requires offset < 0x1_0000
    ensures DeviceAddress(words, offset % 0x100, offset / 0x100 % 0x100) == SpdAddress(words, offset)
  {
  }

  lemma SpdUnfolds(mem: seq<byte>, words: bool, size: nat, script: seq<ReadAnswer>, offset: nat, served: nat)
    requires offset <= size
    ensures var r, s := SpdFetch(mem, words, size, script, offset, served), SpdRun(mem, words, size, script, offset, served);
      if !r.Got? || r.got == 0 then s == []
      else
        var p := SpdPiece(mem, words, size, script, offset, served);
        s == if offset + r.got == size then p else p + SpdRun(mem, words, size, script, offset + r.got, served + 1)
  {
    hide SpdFetch, SpdPiece;
  }

  // On a byte device the loop leaves a correct prefix of the device, like the FRU readers.
  lemma {:induction false} SpdReadsBytes(mem: seq<byte>, size: nat, script: seq<ReadAnswer>, offset: nat, served: nat)
    requires offset <= size
    ensures var s := SpdRun(mem, false, size, script, offset, served);
      s != [] ==> offset + |s| <= |mem| && s == mem[offset..offset + |s|]
    decreases size - offset
  {
    hide SpdFetch, SpdPiece, SpdRun;
    SpdUnfolds(mem, false, size, script, offset, served);
    var r := SpdFetch(mem, false, size, script, offset, served);
    if r.Got? && r.got > 0 {
      var p := SpdPiece(mem, false, size, script, offset, served);
      assert p == mem[offset..offset + |p|];
      if offset + r.got < size {
        SpdReadsBytes(mem, size, script, offset + r.got, served + 1);
        var s := SpdRun(mem, false, size, script, offset + r.got, served + 1);
        if s != [] {
          Adjoining(mem, offset, offset + |p|, offset + |p| + |s|);
        }
      }
    }
  }

  lemma Adjoining(mem: seq<byte>, a: nat, b: nat, c: nat)
    requires a <= b <= c <= |mem|
    ensures mem[a..b] + mem[b..c] == mem[a..c]
  {
  }

  lemma SpdIsPrefix(mem: seq<byte>, size: nat, script: seq<ReadAnswer>, served: nat)
    ensures var s := SpdRun(mem, false, size, script, 0, served);
      ReadPrefix(mem, 0, Zeros(size), s + Zeros(size - |s|), |s|)
  {
    SpdReadsBytes(mem, size, script, 0, served);
    var s := SpdRun(mem, false, size, script, 0, served);
    if s != [] {
      assert (s + Zeros(size - |s|))[..|s|] == s;
    }
  }

  // ---- word devices ----

  // The bytes stored are those at the front of the device.
  ghost predicate SpdRight(mem: seq<byte>, words: bool, size: nat, script: seq<ReadAnswer>, served: nat) {
    var s := SpdRun(mem, words, size, script, 0, served);
    |s| <= |mem| && s == mem[..|s|]
  }

  // That holds for every content of a device of this length.
  ghost predicate SpdAlwaysRight(length: nat, words: bool, size: nat, script: seq<ReadAnswer>, served: nat) {
    forall mem: seq<byte> :: |mem| == length ==> SpdRight(mem, words, size, script, served)
  }

  // A second request brings something as well.
  predicate SecondPiece(length: nat, words: bool, size: nat, script: seq<ReadAnswer>, served: nat) {
    var r := SpdFetch(Zeros(length), words, size, script, 0, served);
    && r.Got? && 0 < r.got < size
    && SpdFetch(Zeros(length), words, size, script, r.got, served + 1).Got?
    && SpdFetch(Zeros(length), words, size, script, r.got, served + 1).got > 0
  }

  // How the device cuts its replies does not depend on what it holds.
  lemma SpdFetchByLength(a: seq<byte>, b: seq<byte>, words: bool, size: nat, script: seq<ReadAnswer>, offset: nat, served: nat)
    requires |a| == |b| && offset <= size
    ensures SpdFetch(a, words, size, script, offset, served) == SpdFetch(b, words, size, script, offset, served)
  {
  }

  // The loop reads every content correctly from a byte device, and from a word device
  // exactly when no more than one request brings data: the second one already reads from
  // twice its offset.
  lemma SpdRightIff(length: nat, words: bool, size: nat, script: seq<ReadAnswer>, served: nat)
    ensures SpdAlwaysRight(length, words, size, script, served) <==> !words || !SecondPiece(length, words, size, script, served)
  {
    if !words {
      forall mem: seq<byte> | |mem| == length ensures SpdRight(mem, words, size, script, served) {
        SpdReadsBytes(mem, size, script, 0, served);
      }
    } else if !SecondPiece(length, words, size, script, served) {
      forall mem: seq<byte> | |mem| == length ensures SpdRight(mem, words, size, script, served) {
        OnePieceIsRight(mem, words, size, script, served);
      }
    } else {
      var g := SpdFetch(Zeros(length), words, size, script, 0, served).got;
      var mem: seq<byte> := seq(length, i => if i == 2 * g then 1 else 0);
      TwoPiecesAreWrong(mem, size, script, served, g);
    }
  }

  // So the loop is right for every device and content exactly for byte devices and sizes
  // that a single piece has to cover.
  lemma SpdRightForAllIff(words: bool, size: nat)
    ensures (forall length: nat, script: seq<ReadAnswer>, served: nat :: SpdAlwaysRight(length, words, size, script, served))
       <==> !words || size <= 1
  {
    hide SpdAlwaysRight;
    forall length: nat, script: seq<ReadAnswer>, served: nat | !words || size <= 1
      ensures SpdAlwaysRight(length, words, size, script, served)
    {
      SpdRightIff(length, words, size, script, served);
    }
    if words && size > 1 {
      var script := [Piece(1, 1), Piece(1, 1)];
      SpdRightIff(3, words, size, script, 0);
      assert SecondPiece(3, words, size, script, 0);
    }
  }

  lemma OnePieceIsRight(mem: seq<byte>, words: bool, size: nat, script: seq<ReadAnswer>, served: nat)
    requires !SecondPiece(|mem|, words, size, script, served)
    ensures SpdRight(mem, words, size, script, served)
  {
    hide SpdFetch, SpdPiece;
    SpdFetchByLength(mem, Zeros(|mem|), words, size, script, 0, served);
    var r := SpdFetch(mem, words, size, script, 0, served);
    if r.Got? && 0 < r.got {
      if r.got < size {
        SpdFetchByLength(mem, Zeros(|mem|), words, size, script, r.got, served + 1);
        assert SpdRun(mem, words, size, script, r.got, served + 1) == [];
      }
      var p := SpdPiece(mem, words, size, script, 0, served);
      assert SpdRun(mem, words, size, script, 0, served) == p;
    }
  }

  lemma TwoPiecesAreWrong(mem: seq<byte>, size: nat, script: seq<ReadAnswer>, served: nat, g: nat)
    requires SecondPiece(|mem|, true, size, script, served)
    requires g == SpdFetch(Zeros(|mem|), true, size, script, 0, served).got
    requires forall i :: 0 <= i < |mem| ==> mem[i] == if i == 2 * g then 1 else 0
    ensures !SpdRight(mem, true, size, script, served)
  {
    hide SpdFetch, SpdPiece;
    SpdFetchByLength(mem, Zeros(|mem|), true, size, script, 0, served);
    SpdFetchByLength(mem, Zeros(|mem|), true, size, script, g, served + 1);
    var p, q := SpdPiece(mem, true, size, script, 0, served), SpdPiece(mem, true, size, script, g, served + 1);
    var s, s2 := SpdRun(mem, true, size, script, 0, served), SpdRun(mem, true, size, script, g, served + 1);
    assert s == p + s2 && q == mem[2 * g..2 * g + |q|];
    assert s2[0] == q[0] == 1;
    assert s[g] == 1 && mem[g] == 0;
  }
}
