// The resizing editor, part one: the shape of a section, the resize arithmetic, and the
// rewriting of one field inside a section (ipmi_fru_set_field_string_rebuild in
// lib/ipmi_fru.c).
module FruLayout {
  import opened Bytes
  import opened FruDevice
  import opened FruField

  const FRU_END_OF_FIELDS: byte := 0xc1

  // ---- a section ----

  // An info area: the bytes before the first field, the fields, the number of padding
  // bytes between the end marker and the checksum.
  datatype Section = Section(prefix: seq<byte>, fields: seq<Field>, pad: nat)

  ghost predicate SectionOk(sec: Section) {
    FieldsOk(sec.fields)
  }

  ghost function Body(sec: Section): seq<byte>
    requires SectionOk(sec)
  {
    sec.prefix + EncodeFields(sec.fields) + [FRU_END_OF_FIELDS] + Zeros(sec.pad)
  }

  ghost function EncodeSection(sec: Section): seq<byte>
    requires SectionOk(sec)
  {
    Body(sec) + [Complement(Body(sec))]
  }

  // The section occupies len bytes of an image from `at` on.
  ghost predicate SectionAt(img: seq<byte>, at: nat, len: nat, sec: Section) {
    SectionOk(sec) && at + len <= |img| && img[at..at + len] == EncodeSection(sec)
  }

  // 8-bit text as the editor writes it.
  function TextField(s: seq<byte>): Field {
    Field(3, s)
  }

  // A string the editor can store: a C string whose length fits the length bits.
  ghost predicate Storable(s: seq<byte>) {
    1 <= |s| < 64 && 0 !in s
  }

  lemma SectionIsZeroSum(img: seq<byte>, at: nat, len: nat, sec: Section)
    requires SectionAt(img, at, len, sec)
    ensures ZeroSum(img[at..at + len])
  {
    ComplementCloses(Body(sec), Complement(Body(sec)));
  }

  // Decoding field k of a section in an image.
  lemma SectionDecodes(img: seq<byte>, at: nat, len: nat, sec: Section, k: nat)
    requires SectionAt(img, at, len, sec) && k < |sec.fields|
    ensures var w := Walk(img, at + |sec.prefix|, k);
      && w.Some? && Fits(img, w.value)
      && Decode(img, w.value) == FieldText(sec.fields[k].typecode, sec.fields[k].payload)
      && Payload(img, w.value) == sec.fields[k].payload
  {
    hide EncodeFields, Decode, Walk, Fits, Payload;
    FieldsInImage(img, at, len, sec);
    DecodeEncoded(img, at + |sec.prefix|, sec.fields, k);
  }

  lemma FieldsInImage(img: seq<byte>, at: nat, len: nat, sec: Section)
    requires SectionAt(img, at, len, sec)
    ensures var from, e := at + |sec.prefix|, EncodeFields(sec.fields);
      from + |e| <= |img| && img[from..from + |e|] == e
  {
    var from, e := at + |sec.prefix|, EncodeFields(sec.fields);
    var w := img[at..at + len];
    var rest := [FRU_END_OF_FIELDS] + Zeros(sec.pad) + [Complement(Body(sec))];
    assert w == sec.prefix + [] + e + rest;
    hide SectionAt, EncodeFields, Body, Complement;
    ThreePieces(img, at, w, sec.prefix, [], e, rest);
  }

  // ---- counting the padding ----

  function TrailingZeros(s: seq<byte>): (n: nat)
    ensures n <= |s|
  {
    if s == [] || s[|s| - 1] != 0 then 0 else 1 + TrailingZeros(s[..|s| - 1])
  }

  lemma {:induction false} TrailingZerosOf(a: seq<byte>, c: byte, n: nat)
    requires c != 0
    ensures TrailingZeros(a + [c] + Zeros(n)) == n
    decreases n
  {
    var s := a + [c] + Zeros(n);
    if n > 0 {
      assert s[..|s| - 1] == a + [c] + Zeros(n - 1);
      TrailingZerosOf(a, c, n - 1);
    }
  }

  // Counts the zero bytes in front of the checksum, backwards.
  method CountPadding(orig: array<byte>, headerOffset: nat, sectionLen: nat) returns (pad: nat)
    requires 2 <= sectionLen && headerOffset + sectionLen <= orig.Length
    ensures pad == TrailingZeros(orig[headerOffset + 1..headerOffset + sectionLen - 1])
  {
    pad := 0;
    var counter := 2;
    ghost var w := orig[headerOffset + 1..headerOffset + sectionLen - 1];
    assert w[..|w| - 0] == w;
    while counter < sectionLen
      invariant 2 <= counter <= sectionLen && pad == counter - 2
      invariant TrailingZeros(w) == pad + TrailingZeros(w[..|w| - pad])
    {
      assert w[..|w| - pad][|w| - pad - 1] == orig[headerOffset + sectionLen - counter];
      assert w[..|w| - pad][..|w| - pad - 1] == w[..|w| - pad - 1];
      if orig[headerOffset + sectionLen - counter] != 0 {
        return;
      }
      pad := pad + 1;
      counter := counter + 1;
    }
    assert w[..0] == [];
  }

  lemma PaddingOfSection(img: seq<byte>, at: nat, len: nat, sec: Section)
    requires SectionAt(img, at, len, sec) && |sec.prefix| >= 1
    ensures len >= 2 && TrailingZeros(img[at + 1..at + len - 1]) == sec.pad
  {
    var w := img[at..at + len];
    var a := sec.prefix[1..] + EncodeFields(sec.fields);
    assert |w| == |EncodeSection(sec)| >= 3;
    var v := img[at + 1..at + len - 1];
    assert |v| == len - 2 == |w[1..len - 1]|;
    assert forall i :: 0 <= i < |v| ==> v[i] == w[1..len - 1][i];
    assert Body(sec) == sec.prefix[..1] + (a + [FRU_END_OF_FIELDS] + Zeros(sec.pad));
    assert w[1..len - 1] == Body(sec)[1..];
    assert v == w[1..len - 1] == a + [FRU_END_OF_FIELDS] + Zeros(sec.pad);
    TrailingZerosOf(a, FRU_END_OF_FIELDS, sec.pad);
  }

  // ---- the resize arithmetic ----

  // C's division: towards zero.
  function CDiv(a: int, b: int): int
    requires b > 0
  {
    if a >= 0 then a / b else -((-a) / b)
  }

  predicate NeedsResize(padding: int) {
    padding < 0 || padding >= FRU_BLOCK_SZ
  }

  // change_block_cnt for the padding that would be left.
  function ChangeBlocks(padding: int): int {
    if padding >= FRU_BLOCK_SZ then -CDiv(padding, FRU_BLOCK_SZ)
    else if padding < 0 then 1 - CDiv(padding + 1, FRU_BLOCK_SZ)
    else 0
  }

  // For every padding the change is minus its floor in blocks, and it leaves 0 to 7
  // padding bytes: the editor's "Internal error" branch cannot be reached.
  lemma ResizeArithmetic(padding: int)
    ensures ChangeBlocks(padding) == -(padding / FRU_BLOCK_SZ)
    ensures padding + ChangeBlocks(padding) * FRU_BLOCK_SZ == padding % FRU_BLOCK_SZ
    ensures 0 <= padding + ChangeBlocks(padding) * FRU_BLOCK_SZ < FRU_BLOCK_SZ
  {
  }

  // FRU_BYTES_ALIGNED(size + change) when the string grows, the old size otherwise.
  function NewBufferSize(size: nat, change: int): nat
    requires size + change >= 0
  {
    if change > 0 then (size + change + FRU_BLOCK_SZ - 1) / FRU_BLOCK_SZ * FRU_BLOCK_SZ else size
  }

  // Whatever ends on a block boundary of the old image still fits the new buffer after
  // the shift.
  lemma NewBufferFits(size: nat, pad: nat, change: int, blocks: nat)
    requires 8 * blocks <= size && size + change >= 0
    ensures 8 * blocks + 8 * ChangeBlocks(pad - change) <= NewBufferSize(size, change)
    ensures size <= NewBufferSize(size, change)
  {
    ResizeArithmetic(pad - change);
    if change > 0 {
      var n := (size + change + 7) / 8;
      assert 8 * (blocks + ChangeBlocks(pad - change)) <= size + change + 7;
    }
  }

  // ---- rewriting one field ----

  // Steps 6 of the editor on an image `img`, with the old image for the remaining bytes:
  // length byte, string, rest of the section, padding, checksum.
  function RewriteField(img: seq<byte>, orig: seq<byte>, at: nat, fo: nat, oldLen: nat, s: seq<byte>, len: nat, pad: nat): (r: seq<byte>)
    requires |s| < 64
    requires at <= fo && fo + |s| + 2 + pad <= at + len <= |img|
    requires fo + 1 + oldLen + (at + len - 1 - (fo + |s| + 1)) <= |orig|
    ensures |r| == |img|
  {
    var rest := orig[fo + 1 + oldLen..fo + 1 + oldLen + (at + len - 1 - (fo + |s| + 1))];
    var n1 := Splice(Splice(img, fo, [0xc0 + |s|]), fo + 1, s);
    var n2 := Splice(n1, fo + 1 + |s|, rest);
    var n3 := Splice(n2, at + len - 1 - pad, Zeros(pad));
    n3[at + len - 1 := Complement(n3[at..at + len - 1])]
  }

  // It touches nothing outside the section.
  lemma RewriteFrame(img: seq<byte>, orig: seq<byte>, at: nat, fo: nat, oldLen: nat, s: seq<byte>, len: nat, pad: nat, i: nat)
    requires |s| < 64
    requires at <= fo && fo + |s| + 2 + pad <= at + len <= |img|
    requires fo + 1 + oldLen + (at + len - 1 - (fo + |s| + 1)) <= |orig|
    requires i < |img| && !(fo <= i < at + len)
    ensures RewriteField(img, orig, at, fo, oldLen, s, len, pad)[i] == img[i]
  {
  }

  // The bytes of a rewritten section, piece by piece: pre is what precedes the field in
  // the image, rest what follows it in the old image.
  lemma RewriteBytes(img: seq<byte>, orig: seq<byte>, at: nat, oldLen: nat, s: seq<byte>, pad: nat, pre: seq<byte>, rest: seq<byte>,
      fo: nat, len: nat)
    requires |s| < 64 && fo == at + |pre| && len == |pre| + 1 + |s| + |rest| + pad + 1
    requires rest != [] && at + len <= |img| && img[at..fo] == pre
    requires fo + 1 + oldLen + |rest| + pad <= |orig|
    requires orig[fo + 1 + oldLen..fo + 1 + oldLen + |rest|] == rest
    ensures var body := pre + [0xc0 + |s|] + s + rest + Zeros(pad);
      RewriteField(img, orig, at, fo, oldLen, s, len, pad)[at..at + len] == body + [Complement(body)]
  {
    var body := pre + [0xc0 + |s|] + s + rest + Zeros(pad);
    var tail := orig[fo + 1 + oldLen..fo + 1 + oldLen + |rest| + pad];
    assert tail[..|rest|] == rest;
    hide Splice, Zeros, Complement;
    var n3 := Splice(Splice(Splice(Splice(img, fo, [0xc0 + |s|]), fo + 1, s), fo + 1 + |s|, tail), at + len - 1 - pad, Zeros(pad));
    SplicedBody(img, at, s, pad, pre, rest, tail, n3);
  }

  lemma SplicedBody(img: seq<byte>, at: nat, s: seq<byte>, pad: nat, pre: seq<byte>, rest: seq<byte>, tail: seq<byte>, n3: seq<byte>)
    requires |s| < 64 && |tail| == |rest| + pad && tail[..|rest|] == rest
    requires var fo := at + |pre|;
      && fo + 1 + |s| + |tail| <= |img| && img[at..fo] == pre
      && n3 == Splice(Splice(Splice(Splice(img, fo, [0xc0 + |s|]), fo + 1, s), fo + 1 + |s|, tail), fo + 1 + |s| + |rest|, Zeros(pad))
    ensures var body := pre + [0xc0 + |s|] + s + rest + Zeros(pad); n3[at..at + |body|] == body
  {
    hide Splice, Zeros;
    var body := pre + [0xc0 + |s|] + s + rest + Zeros(pad);
    forall j | 0 <= j < |body| ensures n3[at + j] == body[j] {
      if j < |pre| {
        assert img[at + j] == img[at..at + |pre|][j];
      } else if |pre| + 1 + |s| <= j < |pre| + 1 + |s| + |rest| {
        assert tail[j - |pre| - 1 - |s|] == rest[j - |pre| - 1 - |s|];
      }
    }
  }

  // What precedes field f in its section, and what follows it up to the padding.
  ghost function Before(sec: Section, f: nat): seq<byte>
    requires SectionOk(sec) && f <= |sec.fields|
  {
    sec.prefix + EncodeFields(sec.fields[..f])
  }

  ghost function After(sec: Section, f: nat): (z: seq<byte>)
    requires SectionOk(sec) && f < |sec.fields|
    ensures z != []
  {
    EncodeFields(sec.fields[f + 1..]) + [FRU_END_OF_FIELDS]
  }

  lemma BodySplit(sec: Section, f: nat)
    requires SectionOk(sec) && f < |sec.fields|
    ensures Body(sec) == Before(sec, f) + EncodeField(sec.fields[f]) + After(sec, f) + Zeros(sec.pad)
  {
    EncodeFieldsSplit(sec.fields, f);
    var a, e, z := EncodeFields(sec.fields[..f]), EncodeField(sec.fields[f]), EncodeFields(sec.fields[f + 1..]);
    assert sec.prefix + (a + e + z) + [FRU_END_OF_FIELDS] == (sec.prefix + a) + e + (z + [FRU_END_OF_FIELDS]);
  }

  function Replaced(sec: Section, f: nat, s: seq<byte>, pad: nat): Section
    requires f < |sec.fields|
  {
    Section(sec.prefix, sec.fields[f := TextField(s)], pad)
  }

  lemma BodyReplaced(sec: Section, f: nat, s: seq<byte>, pad: nat)
    requires SectionOk(sec) && f < |sec.fields| && |s| < 64
    ensures SectionOk(Replaced(sec, f, s, pad))
    ensures Body(Replaced(sec, f, s, pad)) == Before(sec, f) + [0xc0 + |s|] + s + After(sec, f) + Zeros(pad)
  {
    var sec' := Replaced(sec, f, s, pad);
    BodySplit(sec', f);
    assert sec'.fields[..f] == sec.fields[..f] && sec'.fields[f + 1..] == sec.fields[f + 1..];
    assert EncodeField(TextField(s)) == [0xc0 + |s|] + s;
    assert Before(sec, f) + ([0xc0 + |s|] + s) == Before(sec, f) + [0xc0 + |s|] + s;
  }

  // Where the pieces of a section lie in an image.
  lemma PiecesInImage(img: seq<byte>, at: nat, len: nat, sec: Section, f: nat)
    requires SectionAt(img, at, len, sec) && f < |sec.fields|
    ensures var fo, after := at + |Before(sec, f)|, at + |Before(sec, f)| + 1 + |sec.fields[f].payload|;
      && len == |Before(sec, f)| + 1 + |sec.fields[f].payload| + |After(sec, f)| + sec.pad + 1
      && img[at..fo] == Before(sec, f)
      && img[after..after + |After(sec, f)|] == After(sec, f)
  {
    BodySplit(sec, f);
    var pre, e, z := Before(sec, f), EncodeField(sec.fields[f]), After(sec, f);
    var w := img[at..at + len];
    assert w == pre + e + z + Zeros(sec.pad) + [Complement(Body(sec))];
    hide Before, After, EncodeField, Body, SectionAt, Complement;
    ThreePieces(img, at, w, pre, e, z, Zeros(sec.pad) + [Complement(Body(sec))]);
  }

  lemma ThreePieces(img: seq<byte>, at: nat, w: seq<byte>, pre: seq<byte>, e: seq<byte>, z: seq<byte>, rest: seq<byte>)
    requires at + |w| <= |img| && img[at..at + |w|] == w && w == pre + e + z + rest
    ensures img[at..at + |pre|] == pre && img[at + |pre| + |e|..at + |pre| + |e| + |z|] == z
  {
    assert w == [] + pre + (e + z + rest) && w == (pre + e) + z + rest;
    Middle(img, at, [], pre, e + z + rest);
    Middle(img, at, pre + e, z, rest);
  }

  // Rewriting field f of an encoded section gives the encoding of the section with that
  // field replaced by the text, the new padding, and everything else as it was.
  lemma RewriteSection(img: seq<byte>, orig: seq<byte>, at: nat, len: nat, sec: Section, f: nat, s: seq<byte>, pad: nat,
      fo: nat, oldLen: nat, newLen: nat)
    requires SectionAt(orig, at, len, sec) && f < |sec.fields| && |s| < 64
    requires fo == at + |Before(sec, f)| && oldLen == |sec.fields[f].payload| && newLen == len - sec.pad - oldLen + |s| + pad
    requires at + newLen <= |img| && fo <= |img| && img[at..fo] == Before(sec, f)
    requires at + len - 1 - sec.pad + pad <= |orig|
    ensures fo + |s| + 2 + pad <= at + newLen
    ensures fo + 1 + oldLen + (at + newLen - 1 - (fo + |s| + 1)) <= |orig|
    ensures SectionAt(RewriteField(img, orig, at, fo, oldLen, s, newLen, pad), at, newLen, Replaced(sec, f, s, pad))
  {
    RewriteFits(orig, at, len, sec, f, s, pad, fo, oldLen, newLen);
    EncodeReplaced(sec, f, s, pad);
    hide RewriteField, Before, After, Body, Complement, EncodeSection;
    RewriteBytes(img, orig, at, oldLen, s, pad, Before(sec, f), After(sec, f), fo, newLen);
  }

  // The pieces of the new section: its length, and where the rest comes from.
  lemma RewriteFits(orig: seq<byte>, at: nat, len: nat, sec: Section, f: nat, s: seq<byte>, pad: nat, fo: nat, oldLen: nat, newLen: nat)
    requires SectionAt(orig, at, len, sec) && f < |sec.fields|
    requires fo == at + |Before(sec, f)| && oldLen == |sec.fields[f].payload| && newLen == len - sec.pad - oldLen + |s| + pad
    requires at + len - 1 - sec.pad + pad <= |orig|
    ensures newLen == |Before(sec, f)| + 1 + |s| + |After(sec, f)| + pad + 1
    ensures fo + 1 + oldLen + |After(sec, f)| + pad <= |orig|
    ensures orig[fo + 1 + oldLen..fo + 1 + oldLen + |After(sec, f)|] == After(sec, f)
  {
    PiecesInImage(orig, at, len, sec, f);
  }

  lemma EncodeReplaced(sec: Section, f: nat, s: seq<byte>, pad: nat)
    requires SectionOk(sec) && f < |sec.fields| && |s| < 64
    ensures SectionOk(Replaced(sec, f, s, pad))
    ensures var body := Before(sec, f) + [0xc0 + |s|] + s + After(sec, f) + Zeros(pad);
      EncodeSection(Replaced(sec, f, s, pad)) == body + [Complement(body)]
  {
    BodyReplaced(sec, f, s, pad);
  }
}
