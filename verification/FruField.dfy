// Type/length fields of the FRU areas: get_fru_area_str in lib/ipmi_fru.c.
module FruField {
  import opened Bytes
  import opened HexText

  // ---- the four encodings ----

  function BcdPlus(n: nat): byte
    requires n < 16
  {
    // the table "0123456789 -.:,_"
    match n
    case 10 => ' ' as int
    case 11 => '-' as int
    case 12 => '.' as int
    case 13 => ':' as int
    case 14 => ',' as int
    case 15 => '_' as int
    case _ => '0' as int + n
  }

  // High nibble first.
  function BcdText(d: seq<byte>): (s: seq<byte>)
    ensures |s| == 2 * |d|
  {
    if d == [] then [] else [BcdPlus(d[0] / 16), BcdPlus(d[0] % 16)] + BcdText(d[1..])
  }

  type sextet = x: int | 0 <= x < 64

  // The bits of up to three bytes, least significant byte first.
  function Group(d: seq<byte>): (bits: nat)
    requires d != []
    ensures bits < 0x100_0000
  {
    d[0] as int + (if |d| > 1 then 0x100 * d[1] as int else 0) + (if |d| > 2 then 0x1_0000 * d[2] as int else 0)
  }

  // Four characters from one group, lowest six bits first.
  function GroupText(bits: nat): (s: seq<byte>)
    requires bits < 0x100_0000
    ensures |s| == 4
  {
    [bits % 64 + 0x20, bits / 64 % 64 + 0x20, bits / 0x1000 % 64 + 0x20, bits / 0x4_0000 % 64 + 0x20]
  }

  function SixBitText(d: seq<byte>): (s: seq<byte>)
    ensures |s| == (|d| + 2) / 3 * 4
  {
    if d == [] then [] else GroupText(Group(d)) + SixBitText(d[Min(3, |d|)..])
  }

  // ---- one field ----

  function TypeCode(head: byte): nat { head / 64 }
  function PayloadLen(head: byte): nat { head % 64 }

  // A field starts at off and lies inside the data.
  predicate Fits(data: seq<byte>, off: nat) {
    off < |data| && off + 1 + PayloadLen(data[off]) <= |data|
  }

  function NextField(data: seq<byte>, off: nat): (next: nat)
    requires Fits(data, off)
    ensures off < next <= |data|
  {
    off + 1 + PayloadLen(data[off])
  }

  function Payload(data: seq<byte>, off: nat): (p: seq<byte>)
    requires Fits(data, off)
    ensures |p| == PayloadLen(data[off])
  {
    data[off + 1..NextField(data, off)]
  }

  // The characters a payload stands for.
  function Characters(typecode: nat, payload: seq<byte>): seq<byte>
    requires typecode < 4
  {
    if typecode == 0 then Dump(payload)
    else if typecode == 1 then BcdText(payload)
    else if typecode == 2 then SixBitText(payload)
    else payload
  }

  // The size computed before decoding.
  function BufferSize(typecode: nat, len: nat): nat
    requires typecode < 4
  {
    if typecode < 2 then 2 * len
    else if typecode == 2 then (len / 3 + 1) * 4
    else len
  }

  // What get_fru_area_str returns for a field: no string for an empty buffer, otherwise
  // the C string left in the buffer.
  function FieldText(typecode: nat, payload: seq<byte>): Option<seq<byte>>
    requires typecode < 4
  {
    if BufferSize(typecode, |payload|) == 0 then None
    else Some(CString(Characters(typecode, payload)))
  }

  function Decode(data: seq<byte>, off: nat): Option<seq<byte>>
    requires Fits(data, off)
  {
    FieldText(TypeCode(data[off]), Payload(data, off))
  }

  // ---- get_fru_area_str ----

  // The cursor always advances by 1 + length; the buffer has size + 1 bytes, all writes
  // stay inside it, and it holds the decoded characters followed by NULs.
  method GetFruAreaStr(data: array<byte>, offset: nat) returns (str: array?<byte>, off: nat)
    requires Fits(data[..], offset)
    ensures off == NextField(data[..], offset)
    ensures str == null <==> Decode(data[..], offset).None?
    ensures str != null ==> fresh(str)
    ensures str != null ==> Decode(data[..], offset) == Some(CString(str[..]))
    ensures str != null ==> str.Length == BufferSize(TypeCode(data[offset]), PayloadLen(data[offset])) + 1
  {
    hide SixBitText, BcdText, Dump, CString;
    off := offset;
    var typecode := data[off] / 64;
    var len := data[off] % 64;
    off := off + 1;
    var size := 0;
    match typecode {
      case 0 => size := len * 2;
      case 1 => size := len * 2;
      case 2 => size := (len / 3 + 1) * 4;
      case _ => size := len;
    }
    if size < 1 {
      return null, off;
    }
    var s := new byte[size + 1](_ => 0);
    ghost var payload := data[off..off + len];
    match typecode {
      case 0 =>
        HexField(data, off, len, s);
      case 1 =>
        BcdField(data, off, len, s);
      case 2 =>
        SixBitField(data, off, len, s);
      case _ =>
        Memcpy(s, 0, data, off, size);
        assert s[..size] == payload;
    }
    assert payload == Payload(data[..], offset);
    CStringAgain(s[..], Characters(typecode, payload));
    off := off + len;
    str := s;
  }

  // A buffer holding the characters and then a NUL has the C string of the characters.
  lemma {:induction false} CStringAgain(b: seq<byte>, s: seq<byte>)
    requires |s| < |b| && s == b[..|s|] && b[|s|] == 0
    ensures CString(b) == CString(s)
  {
    if s != [] {
      assert b[0] == s[0];
      if s[0] != 0 {
        CStringAgain(b[1..], s[1..]);
      }
    }
  }

  method HexField(data: array<byte>, off: nat, len: nat, str: array<byte>)
    requires off + len <= data.Length && len < 64 && str.Length == 2 * len + 1 && data != str
    modifies str
    ensures str[..2 * len] == Dump(data[off..off + len]) && str[2 * len] == 0
  {
    var hex := new byte[BUF2STR_MAXIMUM_OUTPUT_SIZE];
    Buf2Str(data, off, len, hex);
    Strncpy(str, hex, 2 * len);
    DumpIsHex(data[off..off + len]);
    str[2 * len] := 0;
  }

  // strncpy: the C string of src, cut to n bytes and padded with NULs.
  method Strncpy(dst: array<byte>, src: array<byte>, n: nat)
    requires dst != src && n <= dst.Length && n < src.Length
    modifies dst
    ensures |CString(src[..])| >= n ==> dst[..n] == CString(src[..])[..n]
    ensures forall i :: n <= i < dst.Length ==> dst[i] == old(dst[i])
  {
    var i := 0;
    ghost var s := CString(src[..]);
    while i < n && src[i] != 0
      invariant 0 <= i <= n && i <= |s|
      invariant dst[..i] == s[..i]
      invariant forall j :: n <= j < dst.Length ==> dst[j] == old(dst[j])
    {
      assert s == src[..][..|s|];
      dst[i] := src[i];
      i := i + 1;
    }
    assert i < n ==> |s| == i;
    while i < n
      invariant 0 <= i <= n
      invariant |s| >= n ==> dst[..n] == s[..n]
      invariant forall j :: n <= j < dst.Length ==> dst[j] == old(dst[j])
    {
      dst[i] := 0;
      i := i + 1;
    }
  }

  method BcdField(data: array<byte>, off: nat, len: nat, str: array<byte>)
    requires off + len <= data.Length && str.Length == 2 * len + 1 && data != str
    modifies str
    ensures str[..2 * len] == BcdText(data[off..off + len]) && str[2 * len] == 0
  {
    ghost var p := data[off..off + len];
    var k := 0;
    while k < 2 * len
      invariant 0 <= k <= 2 * len
      invariant forall j :: 0 <= j < k ==> str[j] == BcdText(p)[j]
    {
      BcdAt(p, k);
      str[k] := BcdPlus(if k % 2 == 1 then data[off + k / 2] % 16 else data[off + k / 2] / 16);
      k := k + 1;
    }
    str[k] := 0;
  }

  lemma {:induction false} BcdAt(d: seq<byte>, k: nat)
    requires k < 2 * |d|
    ensures BcdText(d)[k] == BcdPlus(if k % 2 == 1 then d[k / 2] % 16 else d[k / 2] / 16)
  {
    if k >= 2 {
      BcdAt(d[1..], k - 2);
    }
  }

  method SixBitField(data: array<byte>, off: nat, len: nat, str: array<byte>)
    requires off + len <= data.Length && str.Length == (len / 3 + 1) * 4 + 1 && data != str
    modifies str
    ensures |SixBitText(data[off..off + len])| < str.Length
    ensures var t := SixBitText(data[off..off + len]); str[..|t|] == t && str[|t|] == 0
  {
    hide SixBitText, GroupText;
    ghost var p := data[off..off + len];
    ghost var done, rest, g := [], p, 0;
    SixBitNothing();
    var i, j := 0, 0;
    while i < len
      invariant i == 3 * g && i <= len + 2 && j == 4 * g == |done|
      invariant rest == if i < len then p[i..] else []
      invariant SixBitText(p) == done + SixBitText(rest)
      invariant str[..j] == done
    {
      var k := if len - i < 3 then len - i else 3;
      var bits: nat := data[off + i];
      if k > 1 { bits := bits + 0x100 * data[off + i + 1] as int; }
      if k > 2 { bits := bits + 0x1_0000 * data[off + i + 2] as int; }
      assert bits == Group(rest);
      StoreGroup(str, j, bits);
      SixBitStep(p, done, rest);
      done, rest := done + GroupText(bits), rest[Min(3, |rest|)..];
      i, j, g := i + 3, j + 4, g + 1;
    }
    str[j] := 0;
  }

  lemma SixBitNothing()
    ensures SixBitText([]) == []
  {
  }

  lemma SixBitStep(p: seq<byte>, done: seq<byte>, rest: seq<byte>)
    requires rest != [] && SixBitText(p) == done + SixBitText(rest)
    ensures SixBitText(p) == (done + GroupText(Group(rest))) + SixBitText(rest[Min(3, |rest|)..])
  {
  }

  // Stores the four characters of a group, lowest bits first.
  method StoreGroup(str: array<byte>, j: nat, group: nat)
    requires j + 4 <= str.Length && group < 0x100_0000
    modifies str
    ensures str[..j + 4] == old(str[..j]) + GroupText(group)
    ensures forall i :: j + 4 <= i < str.Length ==> str[i] == old(str[i])
  {
    var bits, k := group, 0;
    while k < 4
      invariant 0 <= k <= 4
      invariant k == 0 ==> bits == group
      invariant k == 1 ==> bits == group / 64
      invariant k == 2 ==> bits == group / 0x1000
      invariant k == 3 ==> bits == group / 0x4_0000
      invariant forall i :: 0 <= i < j ==> str[i] == old(str[i])
      invariant forall i :: 0 <= i < k ==> str[j + i] == GroupText(group)[i]
      invariant forall i :: j + 4 <= i < str.Length ==> str[i] == old(str[i])
    {
      str[j + k] := bits % 64 + 0x20;
      bits := bits / 64;
      k := k + 1;
    }
  }

  // ---- packing, and decoding as its inverse ----

  // The t-th character code, or zero beyond the end of a short group.
  function Code(t: seq<sextet>, i: nat): (c: nat)
    ensures c < 64
  {
    if i < |t| then t[i] else 0
  }

  // A pack of at most four sextets takes the bytes its bits need.
  function PackGroup(t: seq<sextet>): (d: seq<byte>)
    requires 0 < |t| <= 4
    ensures |d| == Min(3, |t|)
  {
    var bits := Code(t, 0) + 64 * Code(t, 1) + 0x1000 * Code(t, 2) + 0x4_0000 * Code(t, 3);
    [bits % 256, bits / 256 % 256, bits / 0x1_0000][..Min(3, |t|)]
  }

  function Pack(t: seq<sextet>): (d: seq<byte>)
    ensures |d| == (6 * |t| + 7) / 8
  {
    if t == [] then [] else PackGroup(t[..Min(4, |t|)]) + Pack(t[Min(4, |t|)..])
  }

  // 6-bit ASCII: character codes start at 0x20.
  function SixBitAscii(t: seq<sextet>): (s: seq<byte>)
    ensures |s| == |t|
  {
    seq(|t|, i requires 0 <= i < |t| => t[i] as int + 0x20)
  }

  function Spaces(n: nat): (s: seq<byte>)
    ensures |s| == n
  {
    seq(n, _ => 0x20)
  }

  lemma SextetsOf(a: nat, b: nat, c: nat, d: nat)
    requires a < 64 && b < 64 && c < 64 && d < 64
    ensures var bits := a + 64 * b + 0x1000 * c + 0x4_0000 * d;
      bits % 64 == a && bits / 64 % 64 == b && bits / 0x1000 % 64 == c && bits / 0x4_0000 % 64 == d
  {
    var bits := a + 64 * b + 0x1000 * c + 0x4_0000 * d;
    assert bits / 64 == b + 64 * c + 0x1000 * d;
    assert bits / 0x1000 == c + 64 * d;
  }

  lemma BytesOf(bits: nat)
    requires bits < 0x100_0000
    ensures bits / 0x1_0000 < 256
    ensures bits % 256 + 0x100 * (bits / 256 % 256) + 0x1_0000 * (bits / 0x1_0000) == bits
  {
    assert bits / 0x1_0000 == bits / 256 / 256;
  }

  lemma GroupOfPack(t: seq<sextet>)
    requires 0 < |t| <= 4
    ensures Group(PackGroup(t)) == Code(t, 0) + 64 * Code(t, 1) + 0x1000 * Code(t, 2) + 0x4_0000 * Code(t, 3)
  {
    var bits := Code(t, 0) + 64 * Code(t, 1) + 0x1000 * Code(t, 2) + 0x4_0000 * Code(t, 3);
    BytesOf(bits);
    if |t| == 1 {
      assert bits < 64;
    } else if |t| == 2 {
      assert bits < 0x1000;
    }
  }

  lemma PackGroupInverse(t: seq<sextet>)
    requires 0 < |t| <= 4
    ensures GroupText(Group(PackGroup(t))) == SixBitAscii(t) + Spaces(4 - |t|)
  {
    GroupOfPack(t);
    SextetsOf(Code(t, 0), Code(t, 1), Code(t, 2), Code(t, 3));
    var l, r := GroupText(Group(PackGroup(t))), SixBitAscii(t) + Spaces(4 - |t|);
    assert forall i :: 0 <= i < 4 ==> l[i] == Code(t, i) + 0x20 == r[i];
  }

  // Characters missing in the last group of four.
  function FillUp(n: nat): nat {
    (4 - n % 4) % 4
  }

  lemma FillUpStep(n: nat)
    ensures FillUp(n + 4) == FillUp(n)
  {
  }

  // Unpacking a packed text gives the text followed only by the spaces that fill up the
  // last group of four.
  lemma {:induction false} UnpackPack(t: seq<sextet>)
    ensures SixBitText(Pack(t)) == SixBitAscii(t) + Spaces(FillUp(|t|))
  {
    hide SixBitText, Pack, SixBitAscii, Spaces;
    if t == [] {
      UnpackNothing();
    } else if |t| < 4 {
      UnpackShort(t);
      assert FillUp(|t|) == 4 - |t|;
    } else {
      UnpackPack(t[4..]);
      UnpackStep(t);
      SixBitAsciiSplit(t);
      FillUpStep(|t| - 4);
      Regroup(SixBitAscii(t[..4]), SixBitAscii(t[4..]), Spaces(FillUp(|t|)));
    }
  }

  lemma UnpackNothing()
    ensures SixBitText(Pack([])) == SixBitAscii([]) + Spaces(FillUp(0))
  {
  }

  lemma Regroup(a: seq<byte>, b: seq<byte>, c: seq<byte>)
    ensures a + (b + c) == (a + b) + c
  {
  }

  lemma UnpackStep(t: seq<sextet>)
    requires |t| >= 4
    ensures SixBitText(Pack(t)) == SixBitAscii(t[..4]) + SixBitText(Pack(t[4..]))
  {
    var g := PackGroup(t[..4]);
    assert Pack(t) == g + Pack(t[4..]);
    UnpackGroup(g, Pack(t[4..]));
    PackGroupInverse(t[..4]);
    assert GroupText(Group(g)) == SixBitAscii(t[..4]);
  }

  lemma UnpackShort(t: seq<sextet>)
    requires 0 < |t| < 4
    ensures SixBitText(Pack(t)) == SixBitAscii(t) + Spaces(4 - |t|)
  {
    assert t[..|t|] == t && Pack(t[|t|..]) == [];
    var g := PackGroup(t);
    assert Pack(t) == g;
    PackGroupInverse(t);
    assert g[Min(3, |g|)..] == [];
    assert SixBitText(g) == GroupText(Group(g));
  }

  lemma UnpackGroup(g: seq<byte>, d: seq<byte>)
    requires |g| == 3
    ensures SixBitText(g + d) == GroupText(Group(g)) + SixBitText(d)
  {
    assert (g + d)[3..] == d;
    assert Group(g + d) == Group(g);
  }

  lemma SixBitAsciiSplit(t: seq<sextet>)
    requires |t| >= 4
    ensures SixBitAscii(t) == SixBitAscii(t[..4]) + SixBitAscii(t[4..])
  {
  }

  type nibble = x: int | 0 <= x < 16

  // Two BCD-plus digits per byte; an odd text is filled up with the code of a space.
  function PackBcd(t: seq<nibble>): (d: seq<byte>)
    ensures |d| == (|t| + 1) / 2
  {
    if t == [] then []
    else if |t| == 1 then [16 * t[0] as int + 10]
    else [16 * t[0] as int + t[1] as int] + PackBcd(t[2..])
  }

  function BcdAscii(t: seq<nibble>): (s: seq<byte>)
    ensures |s| == |t|
  {
    seq(|t|, i requires 0 <= i < |t| => BcdPlus(t[i]))
  }

  lemma {:induction false} UnpackBcd(t: seq<nibble>)
    ensures BcdText(PackBcd(t)) == BcdAscii(t) + Spaces(|t| % 2)
  {
    if |t| == 1 {
      BcdPair(t[0], 10, []);
    } else if |t| >= 2 {
      UnpackBcd(t[2..]);
      BcdStep(t);
      BcdAsciiSplit(t);
      assert |t| % 2 == |t[2..]| % 2;
    }
  }

  lemma BcdAsciiSplit(t: seq<nibble>)
    requires |t| >= 2
    ensures BcdAscii(t) == [BcdPlus(t[0]), BcdPlus(t[1])] + BcdAscii(t[2..])
  {
    hide BcdPlus;
  }

  lemma BcdStep(t: seq<nibble>)
    requires |t| >= 2
    ensures BcdText(PackBcd(t)) == [BcdPlus(t[0]), BcdPlus(t[1])] + BcdText(PackBcd(t[2..]))
  {
    hide BcdPlus, BcdText;
    var h, l, d := t[0], t[1], PackBcd(t[2..]);
    assert PackBcd(t) == [16 * h as int + l as int] + d;
    hide PackBcd;
    BcdPair(h, l, d);
  }

  lemma BcdPair(h: nibble, l: nibble, d: seq<byte>)
    ensures BcdText([16 * h as int + l as int] + d) == [BcdPlus(h), BcdPlus(l)] + BcdText(d)
  {
    hide BcdPlus;
    var b := 16 * h as int + l as int;
    assert b / 16 == h && b % 16 == l;
    assert ([b] + d)[1..] == d;
  }

  // ---- the characters themselves ----

  const BcdDigits: string := "0123456789 -.:,_"

  lemma BcdCharacters(t: seq<nibble>, i: nat)
    requires i < |t|
    ensures BcdAscii(t)[i] == BcdDigits[t[i]] as int
  {
  }

  // The packing example of the Storage Definition: "IPMI" takes the bytes 29h, DCh, A6h.
  lemma PackingExample()
    ensures SixBitText([0x29, 0xdc, 0xa6]) == ['I' as int, 'P' as int, 'M' as int, 'I' as int]
  {
    var d: seq<byte> := [0x29, 0xdc, 0xa6];
    ExampleBits(d);
    SixBitNothing();
    assert d[Min(3, |d|)..] == [];
    hide Group, GroupText;
  }

  lemma ExampleBits(d: seq<byte>)
    requires d == [0x29, 0xdc, 0xa6]
    ensures GroupText(Group(d)) == ['I' as int, 'P' as int, 'M' as int, 'I' as int]
  {
    assert Group(d) == 0xa6dc29;
  }

  // The two upper bits of the head select the encoding, the others are the length; only
  // an empty field that is not 6-bit packed has no text, and a buffer of the computed size
  // and one more byte takes all characters.
  lemma FieldShape(typecode: nat, payload: seq<byte>)
    requires typecode < 4 && |payload| < 64
    ensures var head := EncodeField(Field(typecode, payload))[0]; head == 0x40 * typecode + |payload|
    ensures Decode(EncodeField(Field(typecode, payload)), 0) == FieldText(typecode, payload)
    ensures FieldText(typecode, payload).None? <==> payload == [] && typecode != 2
    ensures |Characters(typecode, payload)| <= BufferSize(typecode, |payload|) < |Characters(typecode, payload)| + 5
    ensures FieldText(typecode, payload).Some? ==> FieldText(typecode, payload).value == CString(
      if typecode == 0 then Dump(payload) else if typecode == 1 then BcdText(payload)
      else if typecode == 2 then SixBitText(payload) else payload)
  {
    hide SixBitText, BcdText, Dump, CString;
    var e := EncodeField(Field(typecode, payload));
    assert e[0] / 64 == typecode && e[0] % 64 == |payload|;
    assert e[1..] == payload && Payload(e, 0) == e[1..];
  }

  // ---- sequences of fields ----

  datatype Field = Field(typecode: nat, payload: seq<byte>)

  ghost predicate FieldOk(f: Field) {
    f.typecode < 4 && |f.payload| < 64
  }

  function EncodeField(f: Field): (e: seq<byte>)
    requires FieldOk(f)
    ensures |e| == 1 + |f.payload|
  {
    [64 * f.typecode + |f.payload|] + f.payload
  }

  ghost predicate FieldsOk(fs: seq<Field>) {
    forall i :: 0 <= i < |fs| ==> FieldOk(fs[i])
  }

  function EncodeFields(fs: seq<Field>): seq<byte>
    requires FieldsOk(fs)
  {
    if fs == [] then [] else EncodeField(fs[0]) + EncodeFields(fs[1..])
  }

  // The cursor after k calls of get_fru_area_str.
  function Walk(data: seq<byte>, off: nat, k: nat): Option<nat>
    decreases k
  {
    if k == 0 then Some(off)
    else if Fits(data, off) then Walk(data, NextField(data, off), k - 1)
    else None
  }

  lemma EncodeUpTo(fs: seq<Field>, k: nat)
    requires FieldsOk(fs) && k < |fs|
    ensures |EncodeFields(fs[..k + 1])| == |EncodeFields(fs[..k])| + 1 + |fs[k].payload|
  {
    EncodeFieldsSplit(fs[..k + 1], k);
    assert fs[..k + 1][..k] == fs[..k] && fs[..k + 1][k + 1..] == [];
  }

  lemma {:induction false} EncodeFieldsSplit(fs: seq<Field>, k: nat)
    requires FieldsOk(fs) && k < |fs|
    ensures FieldsOk(fs[..k]) && FieldsOk(fs[k + 1..])
    ensures EncodeFields(fs) == EncodeFields(fs[..k]) + EncodeField(fs[k]) + EncodeFields(fs[k + 1..])
  {
    if k > 0 {
      EncodeFieldsSplit(fs[1..], k - 1);
      assert fs[1..][..k - 1] == fs[..k][1..];
      assert fs[1..][k..] == fs[k + 1..];
    }
  }

  // Wherever an encoded field list starts, walking over k of its fields lands behind them:
  // at the sum of their encoded lengths.
  lemma {:induction false} WalkEncoded(data: seq<byte>, off: nat, fs: seq<Field>, k: nat)
    requires FieldsOk(fs) && k <= |fs|
    requires off + |EncodeFields(fs)| <= |data|
    requires data[off..off + |EncodeFields(fs)|] == EncodeFields(fs)
    ensures FieldsOk(fs[..k]) && Walk(data, off, k) == Some(off + |EncodeFields(fs[..k])|)
    decreases k
  {
    if k > 0 {
      hide EncodeField, Fits, NextField;
      FirstEncoded(data, off, fs);
      WalkEncoded(data, NextField(data, off), fs[1..], k - 1);
      assert fs[1..][..k - 1] == fs[..k][1..] && fs[..k][0] == fs[0];
      assert EncodeFields(fs[..k]) == EncodeField(fs[0]) + EncodeFields(fs[..k][1..]);
    }
  }

  lemma FirstEncoded(data: seq<byte>, off: nat, fs: seq<Field>)
    requires FieldsOk(fs) && fs != []
    requires off + |EncodeFields(fs)| <= |data|
    requires data[off..off + |EncodeFields(fs)|] == EncodeFields(fs)
    ensures Fits(data, off) && NextField(data, off) == off + |EncodeField(fs[0])|
    ensures var next, rest := NextField(data, off), EncodeFields(fs[1..]);
      next + |rest| <= |data| && data[next..next + |rest|] == rest && |EncodeFields(fs)| == next - off + |rest|
  {
    hide EncodeFields;
    EncodeFieldsCons(fs);
    var e, rest := EncodeField(fs[0]), EncodeFields(fs[1..]);
    var w := data[off..off + |e| + |rest|];
    assert data[off] == w[0] == e[0];
    assert data[off + |e|..off + |e| + |rest|] == w[|e|..] == rest;
  }

  lemma EncodeFieldsCons(fs: seq<Field>)
    requires FieldsOk(fs) && fs != []
    ensures EncodeFields(fs) == EncodeField(fs[0]) + EncodeFields(fs[1..])
  {
  }

  // Decoding the k-th field of an encoded list gives that field's text.
  lemma DecodeEncoded(data: seq<byte>, off: nat, fs: seq<Field>, k: nat)
    requires FieldsOk(fs) && k < |fs|
    requires off + |EncodeFields(fs)| <= |data|
    requires data[off..off + |EncodeFields(fs)|] == EncodeFields(fs)
    ensures Walk(data, off, k).Some?
    ensures var at := Walk(data, off, k).value;
      && Fits(data, at)
      && TypeCode(data[at]) == fs[k].typecode && Payload(data, at) == fs[k].payload
      && Decode(data, at) == FieldText(fs[k].typecode, fs[k].payload)
  {
    WalkEncoded(data, off, fs, k);
    EncodeFieldsSplit(fs, k);
    var a, e, z := EncodeFields(fs[..k]), EncodeField(fs[k]), EncodeFields(fs[k + 1..]);
    Middle(data, off, a, e, z);
    FieldAt(data, off + |a|, fs[k]);
  }

  lemma FieldAt(data: seq<byte>, off: nat, f: Field)
    requires FieldOk(f) && off + 1 + |f.payload| <= |data|
    requires data[off..off + 1 + |f.payload|] == EncodeField(f)
    ensures Fits(data, off) && TypeCode(data[off]) == f.typecode && Payload(data, off) == f.payload
  {
    var w := data[off..off + 1 + |f.payload|];
    assert w[0] == data[off];
    assert w[1..] == f.payload;
    assert data[off + 1..off + 1 + |f.payload|] == w[1..];
  }

  // The rebuild measures the old field with strlen. That is the payload length exactly
  // for 8-bit text without an embedded NUL.
  lemma StrlenIsPayloadLen(f: Field)
    requires FieldOk(f) && FieldText(f.typecode, f.payload).Some?
    ensures |FieldText(f.typecode, f.payload).value| == |f.payload|
       <==> f.payload == [] || (f.typecode == 3 && 0 !in f.payload)
  {
    hide CString, Dump, BcdText, SixBitText;
    var s := Characters(f.typecode, f.payload);
    assert s[..|s|] == s;
    if f.typecode < 3 {
      CharactersPrintable(f);
      CStringOf(s, s);
    } else if 0 !in s {
      CStringOf(s, s);
    }
  }

  lemma CharactersPrintable(f: Field)
    requires f.typecode < 3
    ensures 0 !in Characters(f.typecode, f.payload)
  {
    match f.typecode {
      case 0 =>
        DumpIsHex(f.payload);
      case 1 =>
        var s := BcdText(f.payload);
        forall i | 0 <= i < |s| ensures s[i] != 0 { BcdAt(f.payload, i); }
      case _ =>
        SixBitPrintable(f.payload);
    }
  }

  lemma {:induction false} SixBitPrintable(d: seq<byte>)
    ensures 0 !in SixBitText(d)
  {
    if d != [] {
      SixBitPrintable(d[Min(3, |d|)..]);
    }
  }
}
