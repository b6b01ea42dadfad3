// Channel cipher suites (section 22.15 of IPMI v2.0, lib/ipmi_channel.c): fetching the
// record data in chunks and parsing it.
module CipherSuites {
  import opened Bytes

  const STANDARD_CIPHER_SUITE: byte := 0xc0
  const OEM_CIPHER_SUITE: byte := 0xc1
  const MAX_RECORD_OFFSET := 0x40
  const MAX_DATA_LEN := 0x10
  const LIST_BY_CIPHER_SUITE := 0x80

  // struct cipher_suite_info; the defaults for the three algorithms are "none", 0.
  datatype Suite = Suite(id: byte, iana: nat, auth: byte, integrity: byte, crypt: byte)

  const EMPTY := Suite(0, 0, 0, 0, 0)

  // ---- records ----

  datatype Record =
    | Standard(id: byte, auth: byte, integrity: byte, crypt: byte)
    | Oem(id: byte, iana0: byte, iana1: byte, iana2: byte, auth: byte, integrity: byte, crypt: byte)

  function Encode(r: Record): (e: seq<byte>)
    ensures |e| == if r.Standard? then 5 else 8
  {
    match r
    case Standard(id, a, i, c) => [STANDARD_CIPHER_SUITE, id, a, i, c]
    case Oem(id, i0, i1, i2, a, i, c) => [OEM_CIPHER_SUITE, id, i0, i1, i2, a, i, c]
  }

  function EncodeAll(rs: seq<Record>): seq<byte> {
    if rs == [] then [] else Encode(rs[0]) + EncodeAll(rs[1..])
  }

  // Algorithms have six bits; a standard suite has no IANA number.
  function Mask(alg: byte): byte { alg % 0x40 }

  function SuiteOf(r: Record): Suite {
    match r
    case Standard(id, a, i, c) => Suite(id, 0, Mask(a), Mask(i), Mask(c))
    case Oem(id, i0, i1, i2, a, i, c) =>
      Suite(id, i0 as int + 0x100 * i1 as int + 0x1_0000 * i2 as int, Mask(a), Mask(i), Mask(c))
  }

  function SuitesOf(rs: seq<Record>): (s: seq<Suite>)
    ensures |s| == |rs|
  {
    seq(|rs|, i requires 0 <= i < |rs| => SuiteOf(rs[i]))
  }

  // ---- parsing ----

  // parse_cipher_suite: the suite and the size of the record, or None for an incomplete
  // record or a bad first byte.
  function ParseOne(d: seq<byte>): (r: Option<(Suite, nat)>)
    requires d != []
    ensures r.Some? ==> 0 < r.value.1 <= |d|
  {
    if d[0] == STANDARD_CIPHER_SUITE then
      if |d| < 5 then None else Some((SuiteOf(Standard(d[1], d[2], d[3], d[4])), 5))
    else if d[0] == OEM_CIPHER_SUITE then
      if |d| < 8 then None else Some((SuiteOf(Oem(d[1], d[2], d[3], d[4], d[5], d[6], d[7])), 8))
    else None
  }

  function Parse(d: seq<byte>, capacity: nat): (s: seq<Suite>)
    ensures |s| <= capacity
    decreases capacity
  {
    if d == [] || capacity == 0 then []
    else match ParseOne(d)
      case None => []
      case Some((suite, size)) => [suite] + Parse(d[size..], capacity - 1)
  }

  lemma ParseFirst(r: Record, rest: seq<byte>)
    ensures ParseOne(Encode(r) + rest) == Some((SuiteOf(r), |Encode(r)|))
    ensures (Encode(r) + rest)[|Encode(r)|..] == rest
  {
  }

  // Parsing an encoded record list gives its suites, cut only by the capacity.
  lemma {:induction false} ParseEncoded(rs: seq<Record>, capacity: nat)
    ensures Parse(EncodeAll(rs), capacity) == SuitesOf(rs[..Min(capacity, |rs|)])
    decreases |rs|
  {
    hide ParseOne, Encode;
    if rs != [] && capacity > 0 {
      var e, rest := Encode(rs[0]), EncodeAll(rs[1..]);
      ParseFirst(rs[0], rest);
      ParseEncoded(rs[1..], capacity - 1);
      var n := Min(capacity, |rs|);
      assert rs[..n] == [rs[0]] + rs[1..][..n - 1];
    }
  }

  // Which byte of a record becomes which field, and what the first byte tells.
  lemma RecordFields(b1: byte, b2: byte, b3: byte, b4: byte, b5: byte, b6: byte, b7: byte)
    ensures ParseOne([0xc0, b1, b2, b3, b4]) == Some((Suite(b1, 0, b2 % 64, b3 % 64, b4 % 64), 5))
    ensures ParseOne([0xc1, b1, b2, b3, b4, b5, b6, b7])
      == Some((Suite(b1, b2 as int + 256 * b3 as int + 65536 * b4 as int, b5 % 64, b6 % 64, b7 % 64), 8))
    ensures forall first: byte, rest: seq<byte> :: first != 0xc0 && first != 0xc1 ==> ParseOne([first] + rest).None?
  {
  }

  // Each suite has the identifier, the IANA number and the masked algorithms of its
  // record.
  lemma SuiteFields(r: Record)
    ensures var s := SuiteOf(r);
      && s.id == r.id && s.auth == r.auth % 64 && s.integrity == r.integrity % 64 && s.crypt == r.crypt % 64
      && s.iana == if r.Standard? then 0 else r.iana0 as int + 256 * r.iana1 as int + 65536 * r.iana2 as int
  {
  }

  // The request for chunk i asks for list index i, by cipher suite.
  lemma ListBytes(i: nat)
    requires i < 64
    ensures ListByte(i) == 0x80 + i
  {
  }

  // parse_channel_cipher_suite_data: every entry beyond the count is zero.
  method ParseChannelCipherSuiteData(data: array<byte>, dataLen: nat, suites: array<Suite>) returns (count: nat)
    requires dataLen <= data.Length
    modifies suites
    ensures count == |Parse(data[..dataLen], suites.Length)| <= suites.Length
    ensures suites[..count] == Parse(data[..dataLen], suites.Length)
    ensures forall i :: count <= i < suites.Length ==> suites[i] == EMPTY
  {
    hide Parse, ParseOne;
    forall i | 0 <= i < suites.Length {
      suites[i] := EMPTY;
    }
    count := 0;
    var offset: nat := 0;
    ghost var d, done: seq<Suite> := data[..dataLen], [];
    assert d[0..] == d;
    assert suites[..0] == done;
    ParseStarts(Parse(d, suites.Length));
    while offset < dataLen && count < suites.Length
      invariant offset <= dataLen && count <= suites.Length
      invariant Parsed(Parse(d, suites.Length), done, Parse(d[offset..], suites.Length - count))
      invariant |done| == count && suites[..count] == done
      invariant forall i :: count <= i < suites.Length ==> suites[i] == EMPTY
      decreases dataLen - offset
    {
      assert data[offset..dataLen] == d[offset..];
      var parsed := ParseOne(data[offset..dataLen]);
      ParseStep(d[offset..], suites.Length - count, Parse(d, suites.Length), done);
      if parsed.None? {
        return;
      }
      suites[count] := parsed.value.0;
      assert d[offset..][parsed.value.1..] == d[offset + parsed.value.1..];
      done := done + [parsed.value.0];
      offset := offset + parsed.value.1;
      count := count + 1;
    }
    ParseEnds(d[offset..], suites.Length - count, Parse(d, suites.Length), done);
  }

  // The suites so far and the rest are all there is to parse.
  ghost predicate Parsed(all: seq<Suite>, done: seq<Suite>, rest: seq<Suite>) {
    all == done + rest
  }

  lemma ParseStarts(all: seq<Suite>)
    ensures Parsed(all, [], all)
  {
  }

  lemma ParseStep(d: seq<byte>, capacity: nat, all: seq<Suite>, done: seq<Suite>)
    requires d != [] && capacity > 0 && Parsed(all, done, Parse(d, capacity))
    ensures match ParseOne(d)
      case None => all == done
      case Some((suite, size)) => size <= |d| && Parsed(all, done + [suite], Parse(d[size..], capacity - 1))
  {
  }

  lemma ParseEnds(d: seq<byte>, capacity: nat, all: seq<Suite>, done: seq<Suite>)
    requires (d == [] || capacity == 0) && Parsed(all, done, Parse(d, capacity))
    ensures all == done
  {
  }

  // ---- fetching ----

  // How a device answers the request for one list index: the first byte of the data is
  // the channel number.
  datatype Reply = NoReply | Reply(ccode: byte, data: seq<byte>)

  // The reply to the request whose third byte is the index below.
  type Device = nat -> Reply

  // The third request byte for a list index.
  function ListByte(index: nat): nat
    requires index < MAX_RECORD_OFFSET
  {
    LIST_BY_CIPHER_SUITE + index
  }

  predicate Usable(r: Reply) {
    r.Reply? && r.ccode == 0 && 1 <= |r.data| <= 1 + MAX_DATA_LEN
  }

  // The bytes collected from list index on and the number of requests; None when a
  // reply cannot be used.
  datatype Fetched = Fetched(bytes: Option<seq<byte>>, requests: nat)

  function Fetch(d: Device, index: nat): (f: Fetched)
    requires index < MAX_RECORD_OFFSET
    ensures f.bytes.Some? ==> |f.bytes.value| <= MAX_DATA_LEN * (MAX_RECORD_OFFSET - index)
    decreases MAX_RECORD_OFFSET - index
  {
    var r := d(ListByte(index));
    if !Usable(r) then Fetched(None, 1)
    else if |r.data| == 1 + MAX_DATA_LEN && index + 1 < MAX_RECORD_OFFSET then
      var rest := Fetch(d, index + 1);
      Fetched(if rest.bytes.None? then None else Some(r.data[1..] + rest.bytes.value), 1 + rest.requests)
    else Fetched(Some(r.data[1..]), 1)
  }

  // A device that holds the given record data and returns it in chunks of 16 bytes.
  ghost predicate Holds(d: Device, mem: seq<byte>) {
    forall i :: 0 <= i < MAX_RECORD_OFFSET ==> HoldsChunk(d, mem, i)
  }

  ghost predicate HoldsChunk(d: Device, mem: seq<byte>, i: nat)
    requires i < MAX_RECORD_OFFSET
  {
    var r := d(ListByte(i));
    r.Reply? && r.ccode == 0 && |r.data| >= 1 && r.data[1..] == Chunk(mem, i)
  }

  function Chunk(mem: seq<byte>, i: nat): (c: seq<byte>)
    ensures |c| <= 16
  {
    if 16 * i >= |mem| then [] else mem[16 * i..Min(16 * i + 16, |mem|)]
  }

  // Fetching from such a device: exactly the bytes it holds, in 16-byte requests with one
  // more to see the end, but never more than 64.
  lemma {:induction false} FetchHolds(d: Device, mem: seq<byte>, index: nat)
    requires Holds(d, mem) && index < MAX_RECORD_OFFSET
    requires MAX_DATA_LEN * index <= |mem| <= MAX_DATA_LEN * MAX_RECORD_OFFSET
    ensures var f := Fetch(d, index);
      && f.bytes == Some(mem[MAX_DATA_LEN * index..])
      && f.requests == Min(MAX_RECORD_OFFSET, |mem| / MAX_DATA_LEN + 1) - index
    decreases MAX_RECORD_OFFSET - index
  {
    assert HoldsChunk(d, mem, index);
    var r := d(ListByte(index));
    var from := MAX_DATA_LEN * index;
    assert |r.data| == 1 + |Chunk(mem, index)|;
    if |r.data| == 1 + MAX_DATA_LEN && index + 1 < MAX_RECORD_OFFSET {
      FetchHolds(d, mem, index + 1);
      assert mem[from..] == mem[from..from + MAX_DATA_LEN] + mem[from + MAX_DATA_LEN..];
    } else {
      assert Chunk(mem, index) == mem[from..];
      if |r.data| < 1 + MAX_DATA_LEN {
        assert |mem| / MAX_DATA_LEN == index;
      }
    }
  }

  // A reply to be used: accepted, with the channel number and at most 16 bytes behind it.
  ghost predicate GoodReply(r: Reply) {
    r.Reply? && r.ccode == 0 && 1 <= |r.data| <= 17
  }

  ghost predicate FullReply(d: Device, k: nat) {
    GoodReply(d(0x80 + k)) && |d(0x80 + k).data| == 17
  }

  // The requests are for consecutive list indices. Every reply but the last is good and
  // full; the last is not good, and the fetch fails, or it is not full or the 64th.
  lemma {:induction false} FetchEnds(d: Device, index: nat)
    requires index < 64
    ensures var f := Fetch(d, index);
      var last := index + f.requests - 1;
      && index <= last < 64
      && (forall k :: index <= k < last ==> FullReply(d, k))
      && (f.bytes.Some? <==> GoodReply(d(0x80 + last)))
      && (f.bytes.Some? ==> |d(0x80 + last).data| < 17 || last == 63)
      && (f.bytes.Some? ==> |f.bytes.value| == 16 * (f.requests - 1) + |d(0x80 + last).data| - 1)
    decreases 64 - index
  {
    ListBytes(index);
    var r := d(0x80 + index);
    if GoodReply(r) && |r.data| == 17 && index < 63 {
      FetchEnds(d, index + 1);
    }
  }

  // The whole operation on a device that holds an encoded record list of up to 64 chunks:
  // min(64, bytes / 16 + 1) requests, and the same suites, cut only by the capacity.
  lemma CipherSuiteRoundTrip(d: Device, rs: seq<Record>, capacity: nat)
    requires Holds(d, EncodeAll(rs)) && |EncodeAll(rs)| <= 16 * 64
    ensures var f := Fetch(d, 0);
      && f.requests == Min(64, |EncodeAll(rs)| / 16 + 1)
      && f.bytes.Some? && Parse(f.bytes.value, capacity) == SuitesOf(rs[..Min(capacity, |rs|)])
  {
    FetchHolds(d, EncodeAll(rs), 0);
    assert EncodeAll(rs)[0..] == EncodeAll(rs);
    ParseEncoded(rs, capacity);
  }

  // ipmi_get_channel_cipher_suites: -1 for no capacity or a bad reply, otherwise the
  // parsed suites. `sent` counts the requests.
  method GetChannelCipherSuites(d: Device, suites: array<Suite>) returns (rc: int, count: nat, ghost sent: nat)
    modifies suites
    ensures suites.Length == 0 ==> rc == -1 && sent == 0
    ensures suites.Length > 0 ==> sent == Fetch(d, 0).requests && (rc == 0 <==> Fetch(d, 0).bytes.Some?) && (rc == 0 || rc == -1)
    ensures rc != 0 ==> count == 0
    ensures rc == 0 ==> count <= suites.Length && suites[..count] == Parse(Fetch(d, 0).bytes.value, suites.Length)
  {
    count, sent := 0, 0;
    if suites.Length == 0 {
      return -1, count, sent;
    }
    var data := new byte[MAX_RECORD_OFFSET * MAX_DATA_LEN](_ => 0);
    var ok, offset;
    ok, offset, sent := FetchInto(d, data);
    if !ok {
      return -1, count, sent;
    }
    count := ParseChannelCipherSuiteData(data, offset, suites);
    return 0, count, sent;
  }

  // The request loop: the chunks one behind the other in the buffer.
  method FetchInto(d: Device, data: array<byte>) returns (ok: bool, offset: nat, ghost sent: nat)
    requires data.Length == MAX_RECORD_OFFSET * MAX_DATA_LEN
    modifies data
    ensures sent == Fetch(d, 0).requests && (ok <==> Fetch(d, 0).bytes.Some?)
    ensures ok ==> offset <= data.Length && data[..offset] == Fetch(d, 0).bytes.value
  {
    hide Fetch, Collected;
    ok, offset, sent := true, 0, 0;
    var listIndex: nat, more := 0, true;
    ghost var all, done: seq<byte>, rest := Fetch(d, 0), [], Fetch(d, 0);
    NothingCollected(all);
    while more
      invariant listIndex <= MAX_RECORD_OFFSET && offset <= MAX_DATA_LEN * listIndex && (more ==> listIndex < MAX_RECORD_OFFSET)
      invariant |done| == offset && data[..offset] == done
      invariant Collected(all, done, sent, rest)
      invariant rest == if more then Fetch(d, listIndex) else Fetched(Some([]), 0)
      decreases more, MAX_RECORD_OFFSET - listIndex
    {
      var rsp := d(ListByte(listIndex));
      FetchStep(d, listIndex, all, done, sent);
      sent := sent + 1;
      if !Usable(rsp) {
        ok := false;
        return;
      }
      var n := |rsp.data| - 1;
      forall i | 0 <= i < n {
        data[offset + i] := rsp.data[1 + i];
      }
      done := done + rsp.data[1..];
      offset := offset + n;
      listIndex := listIndex + 1;
      more := |rsp.data| == 1 + MAX_DATA_LEN && listIndex < MAX_RECORD_OFFSET;
      rest := if more then Fetch(d, listIndex) else Fetched(Some([]), 0);
    }
    AllCollected(all, done, sent);
  }

  // Bytes and requests so far plus the rest are the whole fetch.
  ghost predicate Collected(all: Fetched, done: seq<byte>, sent: nat, rest: Fetched) {
    && all.requests == sent + rest.requests
    && (all.bytes.None? <==> rest.bytes.None?)
    && (rest.bytes.Some? ==> all.bytes == Some(done + rest.bytes.value))
  }

  lemma NothingCollected(all: Fetched)
    ensures Collected(all, [], 0, all)
  {
    if all.bytes.Some? {
      assert [] + all.bytes.value == all.bytes.value;
    }
  }

  lemma AllCollected(all: Fetched, done: seq<byte>, sent: nat)
    requires Collected(all, done, sent, Fetched(Some([]), 0))
    ensures all == Fetched(Some(done), sent)
  {
    assert done + [] == done;
  }

  lemma FetchStep(d: Device, index: nat, all: Fetched, done: seq<byte>, sent: nat)
    requires index < MAX_RECORD_OFFSET && Collected(all, done, sent, Fetch(d, index))
    ensures var r := d(ListByte(index));
      var goOn := Usable(r) && |r.data| == 1 + MAX_DATA_LEN && index + 1 < MAX_RECORD_OFFSET;
      if Usable(r) then Collected(all, done + r.data[1..], sent + 1, if goOn then Fetch(d, index + 1) else Fetched(Some([]), 0))
      else all == Fetched(None, sent + 1)
  {
    var r := d(ListByte(index));
    if Usable(r) {
      if |r.data| == 1 + MAX_DATA_LEN && index + 1 < MAX_RECORD_OFFSET {
        var rest := Fetch(d, index + 1);
        if rest.bytes.Some? {
          assert done + (r.data[1..] + rest.bytes.value) == (done + r.data[1..]) + rest.bytes.value;
        }
      } else {
        assert done + r.data[1..] == (done + r.data[1..]) + [];
      }
    }
  }
}
