// The boot initiator mailbox of lib/ipmi_chassis.c: cutting a payload into blocks and
// reading the blocks back.
module BootMailbox {
  import opened Bytes

  const BLOCK_SZ := 16
  const IANA_SZ := 3
  const BLOCK0_SZ := BLOCK_SZ - IANA_SZ
  const MAX_BLOCKS := 0x100

  // A block as sent: the selector byte and up to 16 bytes.
  datatype Block = Block(selector: byte, data: seq<byte>)

  // htoipmi24: the low 24 bits, least significant byte first. The conversion of a
  // negative number to uint32_t is its value modulo 2^32.
  function Iana24(iana: int): (b: seq<byte>)
    ensures |b| == IANA_SZ
  {
    var h := iana % 0x1_0000_0000;
    [h % 0x100, h / 0x100 % 0x100, h / 0x1_0000 % 0x100]
  }

  // ipmi24toh
  function FromIana24(b: seq<byte>): nat
    requires |b| >= IANA_SZ
  {
    0x1_0000 * b[2] as int + 0x100 * b[1] as int + b[0] as int
  }

  lemma IanaRoundTrip(iana: int)
    ensures FromIana24(Iana24(iana)) == iana % 0x100_0000
  {
    var h := iana % 0x1_0000_0000;
    assert h % 0x100_0000 == iana % 0x100_0000 by {
      assert 0x1_0000_0000 == 0x100 * 0x100_0000;
      var k := iana / 0x1_0000_0000;
      assert iana == 0x100_0000 * (0x100 * k) + h;
      ModShift(h, 0x100 * k);
    }
    Digits24(h);
  }

  // The low byte comes first.
  lemma IanaBytes(iana: int)
    requires 0 <= iana < 0x100_0000
    ensures Iana24(iana) == [iana % 256, iana / 256 % 256, iana / 65536]
  {
  }

  lemma ModShift(h: int, k: int)
    ensures (0x100_0000 * k + h) % 0x100_0000 == h % 0x100_0000
  {
  }

  lemma Digits24(h: nat)
    ensures 0x1_0000 * (h / 0x1_0000 % 0x100) + 0x100 * (h / 0x100 % 0x100) + h % 0x100 == h % 0x100_0000
  {
    var q1, q2 := h / 0x100, h / 0x1_0000;
    var q3, low := q2 / 0x100, 0x1_0000 * (q2 % 0x100) + 0x100 * (q1 % 0x100) + h % 0x100;
    assert q2 == q1 / 0x100;
    assert h == 0x100_0000 * q3 + low;
    ModOf(low, q3);
  }

  lemma ModOf(low: nat, k: nat)
    requires low < 0x100_0000
    ensures (0x100_0000 * k + low) % 0x100_0000 == low
  {
  }

  // Payload bytes a block can carry.
  function Capacity(block: int): nat {
    if block == 0 then BLOCK0_SZ else BLOCK_SZ
  }

  // The blocks for a payload from block number `block` on, at most n of them.
  function Split(payload: seq<byte>, block: int, n: nat, iana: int): seq<Block>
    decreases n
  {
    if payload == [] || n == 0 then []
    else
      var k := Min(|payload|, Capacity(block));
      [Block(block % 0x100, (if block == 0 then Iana24(iana) else []) + payload[..k])]
      + Split(payload[k..], block + 1, n - 1, iana)
  }

  // How many blocks the whole payload needs, the IANA number included.
  function BlocksFor(size: nat): nat {
    (IANA_SZ + size + BLOCK_SZ - 1) / BLOCK_SZ
  }

  // chassis_bootmailbox_parse: block 0 starts with the IANA number. A block 0 shorter
  // than that has no meaning.
  function Extract(b: Block): (data: seq<byte>)
    requires b.selector == 0 ==> |b.data| >= IANA_SZ
  {
    if b.selector == 0 then b.data[IANA_SZ..] else b.data
  }

  ghost predicate Readable(bs: seq<Block>) {
    forall i :: 0 <= i < |bs| ==> bs[i].selector == 0 ==> |bs[i].data| >= IANA_SZ
  }

  function ExtractAll(bs: seq<Block>): seq<byte>
    requires Readable(bs)
  {
    if bs == [] then [] else Extract(bs[0]) + ExtractAll(bs[1..])
  }

  lemma SplitFirst(payload: seq<byte>, block: int, n: nat, iana: int, k: nat)
    requires payload != [] && n > 0 && k == Min(|payload|, Capacity(block))
    ensures k > 0 && Split(payload, block, n, iana)
         == [Block(block % 0x100, (if block == 0 then Iana24(iana) else []) + payload[..k])] + Split(payload[k..], block + 1, n - 1, iana)
  {
  }

  // Reading a block and then the rest.
  lemma ExtractFirst(b: Block, rest: seq<Block>)
    requires Readable(rest) && (b.selector == 0 ==> |b.data| >= IANA_SZ)
    ensures Readable([b] + rest) && ExtractAll([b] + rest) == Extract(b) + ExtractAll(rest)
  {
    assert ([b] + rest)[1..] == rest;
    assert forall i :: 0 <= i < |rest| ==> ([b] + rest)[i + 1] == rest[i];
  }

  // Consecutive numbers from `block` on.
  ghost predicate Numbered(bs: seq<Block>, block: nat) {
    forall i :: 0 <= i < |bs| ==> bs[i].selector == block + i
  }

  lemma NumberedFirst(b: Block, rest: seq<Block>, block: nat)
    requires b.selector == block && Numbered(rest, block + 1)
    ensures Numbered([b] + rest, block)
  {
  }

  ghost predicate Filled(bs: seq<Block>) {
    forall i :: 0 <= i < |bs| ==> 1 <= |bs[i].data| <= BLOCK_SZ
  }

  lemma FilledFirst(b: Block, rest: seq<Block>)
    requires 1 <= |b.data| <= BLOCK_SZ && Filled(rest)
    ensures Filled([b] + rest)
  {
  }

  // Blocks behind the first: full ones and a last one that is not empty, numbered from
  // `block` on; extracting them gives the payload back.
  lemma {:induction false} SplitRest(payload: seq<byte>, block: nat, n: nat, iana: int)
    requires block >= 1 && block + n <= MAX_BLOCKS
    requires BLOCK_SZ * n - BLOCK_SZ < |payload| <= BLOCK_SZ * n
    ensures var bs := Split(payload, block, n, iana);
      && |bs| == n
      && Numbered(bs, block) && Filled(bs)
      && Readable(bs) && ExtractAll(bs) == payload
    decreases n
  {
    hide ExtractAll, Readable, Numbered, Filled;
    if payload == [] {
      NothingSplit(block, iana);
    } else {
      hide Split;
      var k := Min(|payload|, BLOCK_SZ);
      SplitFirst(payload, block, n, iana, k);
      SplitRest(payload[k..], block + 1, n - 1, iana);
      var b, rest := Block(block, payload[..k]), Split(payload[k..], block + 1, n - 1, iana);
      assert [] + payload[..k] == payload[..k] && block % 0x100 == block;
      ExtractFirst(b, rest);
      NumberedFirst(b, rest, block);
      FilledFirst(b, rest);
      assert payload == payload[..k] + payload[k..];
    }
  }

  lemma NothingSplit(block: nat, iana: int)
    ensures var bs := Split([], block, 0, iana); bs == [] && Numbered(bs, block) && Filled(bs) && Readable(bs) && ExtractAll(bs) == []
  {
  }

  // The whole-mailbox round trip, for every payload the size check accepts: exactly
  // ceil((n + 3) / 16) blocks, numbered 0, 1, 2, ..., none above 255 and none without
  // payload; reading them back gives the IANA number (its low 24 bits) and the payload.
  lemma MailboxRoundTrip(payload: seq<byte>, iana: int)
    requires payload != [] && BlocksFor(|payload|) <= MAX_BLOCKS
    ensures var bs := Split(payload, 0, BlocksFor(|payload|), iana);
      && |bs| == BlocksFor(|payload|)
      && Numbered(bs, 0)
      && Readable(bs) && (forall i :: 0 <= i < |bs| ==> Extract(bs[i]) != [])
      && FromIana24(bs[0].data) == iana % 0x100_0000
      && ExtractAll(bs) == payload
  {
    hide Split, ExtractAll, Iana24, FromIana24, Readable, Numbered;
    var n := BlocksFor(|payload|);
    var k := Min(|payload|, BLOCK0_SZ);
    SplitFirst(payload, 0, n, iana, k);
    SplitRest(payload[k..], 1, n - 1, iana);
    var b, rest := Block(0, Iana24(iana) + payload[..k]), Split(payload[k..], 1, n - 1, iana);
    assert Extract(b) == payload[..k];
    ExtractFirst(b, rest);
    NumberedFirst(b, rest, 0);
    RestExtracts(rest);
    IanaRoundTrip(iana);
    IanaInFront(iana, payload[..k]);
    assert payload == payload[..k] + payload[k..];
  }

  lemma RestExtracts(rest: seq<Block>)
    requires Numbered(rest, 1) && forall i :: 0 <= i < |rest| ==> 1 <= |rest[i].data|
    ensures forall i :: 0 <= i < |rest| ==> rest[i].selector != 0 && Extract(rest[i]) != []
  {
  }

  lemma IanaInFront(iana: int, data: seq<byte>)
    ensures FromIana24(Iana24(iana) + data) == FromIana24(Iana24(iana))
  {
  }

  // A single block carries the payload's first 13 or 16 bytes: nothing is lost exactly
  // when the payload fits, although the write is reported as a success either way.
  lemma SingleBlockKeeps(payload: seq<byte>, block: nat, iana: int)
    requires payload != []
    ensures var bs := Split(payload, block, 1, iana);
      && |bs| == 1
      && bs[0].data == (if block == 0 then Iana24(iana) else []) + payload[..Min(|payload|, Capacity(block))]
      && (payload[..Min(|payload|, Capacity(block))] == payload <==> |payload| <= Capacity(block))
  {
    var k := Min(|payload|, Capacity(block));
    assert Split(payload[k..], block + 1, 0, iana) == [];
    if payload[..k] == payload {
      assert |payload[..k]| == k;
    }
  }

  // A block number has sixteen bits, a selector eight. A block whose number is a
  // non-zero multiple of 256 is sent as block 0 but without the IANA number, and what is
  // read back is not what was written.
  lemma SingleBlockReadsBackIff(payload: seq<byte>, block: nat, iana: int)
    requires 1 <= |payload| <= Capacity(block)
    ensures var b := Split(payload, block, 1, iana)[0];
      ((b.selector == 0 ==> |b.data| >= IANA_SZ) && Extract(b) == payload) <==> (block == 0 || block % 0x100 != 0)
  {
    SingleBlockKeeps(payload, block, iana);
    var b := Split(payload, block, 1, iana)[0];
    assert payload[..|payload|] == payload;
    if block == 0 {
      assert b.data[IANA_SZ..] == payload;
    } else if block % 0x100 == 0 && |b.data| >= IANA_SZ {
      assert |Extract(b)| == |payload| - IANA_SZ;
    }
  }
}
