// Hex printing and parsing (lib/helper.c). C strings are byte sequences without the NUL.
module HexText {
  import opened Bytes

  // Size of the static buffer behind buf2str.
  const BUF2STR_MAXIMUM_OUTPUT_SIZE := 3 * 1024 + 1

  // The C string held by a buffer: its bytes up to the first NUL.
  function CString(b: seq<byte>): (s: seq<byte>)
    ensures |s| <= |b| && 0 !in s
    ensures s == b[..|s|] && (|s| < |b| ==> b[|s|] == 0)
  {
    if b == [] || b[0] == 0 then [] else [b[0]] + CString(b[1..])
  }

  // A buffer that starts with NUL-free text followed by a NUL holds that text.
  lemma {:induction false} CStringOf(b: seq<byte>, s: seq<byte>)
    requires |s| <= |b| && s == b[..|s|] && 0 !in s
    requires |s| < |b| ==> b[|s|] == 0
    ensures CString(b) == s
  {
    if s != [] {
      assert s[0] in s && b[0] == s[0];
      assert forall x :: x in s[1..] ==> x in s;
      CStringOf(b[1..], s[1..]);
    }
  }

  function HexDigit(n: nat): byte
    requires n < 16
  {
    if n < 10 then '0' as int + n else 'a' as int + n - 10
  }

  predicate IsXDigit(c: byte) {
    '0' as int <= c <= '9' as int || 'A' as int <= c <= 'F' as int || 'a' as int <= c <= 'f' as int
  }

  function DigitValue(c: byte): (d: nat)
    requires IsXDigit(c)
    ensures d < 16
  {
    if c < 'A' as int then c - '0' as int
    else (if c < 'a' as int then c + 0x20 else c) - 'a' as int + 10
  }

  // Two lower-case digits per byte.
  function Dump(b: seq<byte>): (s: seq<byte>)
    ensures |s| == 2 * |b|
  {
    if b == [] then [] else [HexDigit(b[0] / 16), HexDigit(b[0] % 16)] + Dump(b[1..])
  }

  predicate AllHex(s: seq<byte>) {
    forall i :: 0 <= i < |s| ==> IsXDigit(s[i])
  }

  // The bytes named by pairs of digits.
  function HexBytes(s: seq<byte>): (b: seq<byte>)
    requires |s| % 2 == 0 && AllHex(s)
    ensures |b| == |s| / 2
  {
    if s == [] then [] else [16 * DigitValue(s[0]) + DigitValue(s[1])] + HexBytes(s[2..])
  }

  function Lower(c: byte): byte {
    if 'A' as int <= c <= 'F' as int then c + 0x20 else c
  }

  // ---- the digits ----

  const HexDigits: string := "0123456789abcdef"

  // Digit n is character n of the table, and its value is n, in upper case too.
  lemma DigitTable(n: nat)
    requires n < 16
    ensures HexDigit(n) == HexDigits[n] as int
    ensures IsXDigit(HexDigits[n] as int) && DigitValue(HexDigits[n] as int) == n
    ensures n >= 10 ==> IsXDigit("ABCDEF"[n - 10] as int) && DigitValue("ABCDEF"[n - 10] as int) == n
  {
  }

  // Byte i of a dump is printed as the digit of its high half and the digit of its low one.
  lemma {:induction false} DumpAt(b: seq<byte>, i: nat)
    requires i < |b|
    ensures Dump(b)[2 * i] == HexDigits[b[i] / 16] as int && Dump(b)[2 * i + 1] == HexDigits[b[i] % 16] as int
  {
    if i == 0 {
      DigitTable(b[0] / 16);
      DigitTable(b[0] % 16);
    } else {
      DumpAt(b[1..], i - 1);
    }
  }

  // ---- printing and parsing undo each other ----

  lemma {:induction false} DumpIsHex(b: seq<byte>)
    ensures AllHex(Dump(b)) && 0 !in Dump(b)
  {
    if b != [] {
      DumpIsHex(b[1..]);
    }
  }

  lemma {:induction false} DumpThenParse(b: seq<byte>)
    ensures |Dump(b)| % 2 == 0 && AllHex(Dump(b)) && HexBytes(Dump(b)) == b
  {
    DumpIsHex(b);
    if b != [] {
      DumpThenParse(b[1..]);
      assert Dump(b)[2..] == Dump(b[1..]);
    }
  }

  lemma {:induction false} ParseThenDump(s: seq<byte>)
    requires |s| % 2 == 0 && AllHex(s)
    ensures Dump(HexBytes(s)) == seq(|s|, i requires 0 <= i < |s| => Lower(s[i]))
  {
    if s != [] {
      ParseThenDump(s[2..]);
      assert HexBytes(s)[1..] == HexBytes(s[2..]);
    }
  }

  lemma {:induction false} DumpAppend(a: seq<byte>, b: seq<byte>)
    ensures Dump(a + b) == Dump(a) + Dump(b)
  {
    if a == [] {
      assert a + b == b;
    } else {
      assert (a + b)[1..] == a[1..] + b;
      DumpAppend(a[1..], b);
    }
  }

  lemma DumpSnoc(b: seq<byte>, i: nat)
    requires i < |b|
    ensures Dump(b[..i + 1]) == Dump(b[..i]) + [HexDigit(b[i] / 16), HexDigit(b[i] % 16)]
  {
    assert b[..i + 1] == b[..i] + [b[i]];
    DumpAppend(b[..i], [b[i]]);
    assert [b[i]][1..] == [];
  }

  lemma DumpNothing()
    ensures Dump([]) == []
  {
  }

  lemma {:induction false} HexBytesAppend(a: seq<byte>, b: seq<byte>)
    requires |a| % 2 == 0 && |b| % 2 == 0 && AllHex(a) && AllHex(b)
    ensures AllHex(a + b) && HexBytes(a + b) == HexBytes(a) + HexBytes(b)
  {
    if a == [] {
      assert a + b == b;
    } else {
      assert (a + b)[2..] == a[2..] + b;
      HexBytesAppend(a[2..], b);
    }
  }

  // ---- the C functions ----

  // How many of n bytes fit, as two digits each, before the terminator.
  function Fitting(n: nat, size: nat): nat
    requires size > 0
  {
    Min(n, (size - 1) / 2)
  }

  // buf2str: hex of buf[at..at + len] into the static buffer str, cut to the longest
  // prefix of whole bytes that leaves room for the terminator.
  method Buf2Str(buf: array<byte>, at: nat, len: nat, str: array<byte>)
    requires at + len <= buf.Length && str.Length > 0 && buf != str
    modifies str
    ensures CString(str[..]) == Dump(buf[at..at + Fitting(len, str.Length)])
    ensures var n := |CString(str[..])| / 2;
      n <= len && 2 * n < str.Length && (n < len ==> 2 * n + 2 >= str.Length) && CString(str[..]) == Dump(buf[at..at + n])
  {
    hide Dump, CString, HexDigit;
    DumpNothing();
    var cur, left, i := 0, str.Length, 0;
    ghost var w := buf[at..at + len];
    while i < len
      invariant 0 <= i <= len && cur == 2 * i && left == str.Length - cur && left >= 1
      invariant str[..cur] == Dump(w[..i])
    {
      var sz := 2;
      if sz >= left {
        break;
      }
      str[cur] := HexDigit(buf[at + i] / 16);
      str[cur + 1] := HexDigit(buf[at + i] % 16);
      DumpSnoc(w, i);
      cur := cur + sz;
      left := left - sz;
      i := i + 1;
    }
    str[cur] := 0;
    DumpIsHex(w[..i]);
    CStringOf(str[..], Dump(w[..i]));
    assert w[..i] == buf[at..at + i];
  }

  // The number of leading hex digits.
  function HexPrefix(s: seq<byte>): (n: nat)
    ensures n <= |s|
  {
    if s == [] || !IsXDigit(s[0]) then 0 else 1 + HexPrefix(s[1..])
  }

  // The prefix is all digits and stops at the first other character.
  lemma {:induction false} HexPrefixStops(s: seq<byte>)
    ensures forall i :: 0 <= i < HexPrefix(s) ==> IsXDigit(s[i])
    ensures HexPrefix(s) < |s| ==> !IsXDigit(s[HexPrefix(s)])
    ensures AllHex(s) <==> HexPrefix(s) == |s|
  {
    if s != [] && IsXDigit(s[0]) {
      HexPrefixStops(s[1..]);
      assert forall i :: 1 <= i < |s| ==> s[i] == s[1..][i - 1];
    }
  }

  // The bytes of the first q pairs; all of their digits must be good.
  function FirstPairs(s: seq<byte>, q: nat): (b: seq<byte>)
    requires 2 * q <= HexPrefix(s)
    ensures |b| == q
  {
    HexPrefixStops(s);
    HexBytes(s[..2 * q])
  }

  lemma FirstPairsSnoc(s: seq<byte>, q: nat)
    requires 2 * q + 2 <= HexPrefix(s)
    ensures IsXDigit(s[2 * q]) && IsXDigit(s[2 * q + 1])
    ensures FirstPairs(s, q + 1) == FirstPairs(s, q) + [16 * DigitValue(s[2 * q]) + DigitValue(s[2 * q + 1])]
  {
    HexPrefixStops(s);
    var s0, s1 := s[..2 * q], s[2 * q..2 * q + 2];
    assert s[..2 * (q + 1)] == s0 + s1;
    forall i | 0 <= i < |s0| ensures IsXDigit(s0[i]) {
      assert s0[i] == s[i];
    }
    forall i | 0 <= i < 2 ensures IsXDigit(s1[i]) {
      assert s1[i] == s[2 * q + i];
    }
    hide HexPrefix, IsXDigit, DigitValue;
    HexBytesAppend(s0, s1);
    assert s1[0] == s[2 * q] && s1[1] == s[2 * q + 1] && s1[2..] == [];
  }

  // ipmi_parse_hex's return value.
  function ParseHexResult(s: seq<byte>, haveOut: bool): int {
    if s == [] then 0
    else if |s| % 2 != 0 then -1
    else if !haveOut then -2
    else if AllHex(s) then |s| / 2
    else -3
  }

  // What ipmi_parse_hex stores: the whole pairs before the first bad character, cut to size.
  function ParseHexStored(s: seq<byte>, size: nat): (b: seq<byte>)
    ensures |b| <= size
  {
    if |s| % 2 != 0 then [] else
      assert 2 * Min(HexPrefix(s) / 2, size) <= HexPrefix(s);
      FirstPairs(s, Min(HexPrefix(s) / 2, size))
  }

  // On the error path too, as many pairs are stored as stand before the first bad character
  // and fit, each the byte its two digits name.
  lemma StoredPairs(s: seq<byte>, size: nat)
    ensures |ParseHexStored(s, size)| == if |s| % 2 != 0 then 0 else Min(HexPrefix(s) / 2, size)
    ensures forall i :: 0 <= i < |ParseHexStored(s, size)| ==>
      && 2 * i + 1 < |s| && IsXDigit(s[2 * i]) && IsXDigit(s[2 * i + 1])
      && ParseHexStored(s, size)[i] as int == 16 * DigitValue(s[2 * i]) + DigitValue(s[2 * i + 1])
  {
    HexPrefixStops(s);
    if |s| % 2 == 0 {
      forall i | 0 <= i < |ParseHexStored(s, size)|
        ensures IsXDigit(s[2 * i]) && IsXDigit(s[2 * i + 1])
        ensures ParseHexStored(s, size)[i] as int == 16 * DigitValue(s[2 * i]) + DigitValue(s[2 * i + 1])
      {
        PairAt(s[..2 * Min(HexPrefix(s) / 2, size)], i);
      }
    }
  }

  lemma {:induction false} PairAt(s: seq<byte>, i: nat)
    requires |s| % 2 == 0 && AllHex(s) && 2 * i < |s|
    ensures 2 * i + 1 < |s| && HexBytes(s)[i] as int == 16 * DigitValue(s[2 * i]) + DigitValue(s[2 * i + 1])
  {
    hide DigitValue, IsXDigit;
    if i > 0 { PairAt(s[2..], i - 1); }
  }

  method IpmiParseHex(str: seq<byte>, out: array?<byte>, size: nat) returns (rc: int)
    requires out != null ==> size <= out.Length
    modifies out
    ensures rc == ParseHexResult(str, out != null)
    ensures rc == 0 <==> str == []
    ensures rc == -1 <==> |str| % 2 == 1
    ensures rc == -2 <==> str != [] && |str| % 2 == 0 && out == null
    ensures rc == -3 <==> str != [] && |str| % 2 == 0 && out != null && exists i :: 0 <= i < |str| && !IsXDigit(str[i])
    ensures rc > 0 ==> 2 * rc == |str|
    ensures rc == 0 || rc == -1 || rc == -2 || rc == -3 || rc > 0
    ensures out != null ==> out[..] == Splice(old(out[..]), 0, ParseHexStored(str, size))
  {
    var len := |str|;
    if len == 0 {
      return 0;
    }
    if len % 2 != 0 {
      return -1;
    }
    len := len / 2;
    if out == null {
      return -2;
    }
    hide AllHex, FirstPairs, HexPrefix, Splice;
    var p, q := 0, 0;
    var d: nat, b: byte, shift := 0, 0, 4;
    ghost var before := out[..];
    HexPrefixStops(str);
    NothingStored(before, str);
    while p < |str|
      invariant p <= HexPrefix(str) && 2 * q <= p && q <= size
      invariant q < size ==> p == 2 * q + if shift == 0 then 1 else 0
      invariant q == size ==> shift == 4
      invariant shift == 4 || shift == 0
      invariant shift == 4 ==> b == 0
      invariant shift == 0 ==> IsXDigit(str[p - 1]) && b == 16 * DigitValue(str[p - 1])
      invariant out[..] == Splice(before, 0, FirstPairs(str, q))
    {
      if !IsXDigit(str[p]) {
        StoredAt(str, p, q, size);
        return -3;
      }
      d := DigitValue(str[p]);
      if q < size {
        if shift != 0 {
          b := 16 * d;
          shift := 0;
        } else {
          shift := 4;
          b := b + d;
          StorePair(before, str, q, b);
          out[q] := b;
          b := 0;
          q := q + 1;
        }
      }
      p := p + 1;
    }
    StoredAt(str, p, q, size);
    return len;
  }

  lemma NothingStored(before: seq<byte>, s: seq<byte>)
    ensures before == Splice(before, 0, FirstPairs(s, 0))
  {
  }

  lemma StorePair(before: seq<byte>, s: seq<byte>, q: nat, b: byte)
    requires 2 * q + 2 <= HexPrefix(s) && q < |before|
    requires IsXDigit(s[2 * q]) && IsXDigit(s[2 * q + 1]) && b == 16 * DigitValue(s[2 * q]) + DigitValue(s[2 * q + 1])
    ensures Splice(before, 0, FirstPairs(s, q))[q := b] == Splice(before, 0, FirstPairs(s, q + 1))
  {
    FirstPairsSnoc(s, q);
    SpliceSnoc(before, 0, FirstPairs(s, q), b);
  }

  // When the scan stops at p with q bytes stored, those are all there is to store.
  lemma StoredAt(s: seq<byte>, p: nat, q: nat, size: nat)
    requires |s| % 2 == 0 && p == HexPrefix(s) && 2 * q <= p && q <= size && (q < size ==> p <= 2 * q + 1)
    ensures ParseHexStored(s, size) == FirstPairs(s, q)
    ensures AllHex(s) <==> p == |s|
  {
    HexPrefixStops(s);
    assert Min(p / 2, size) == q;
  }

  // Parsing the dump of a byte string returns its length and the same bytes.
  lemma DumpParsesBack(b: seq<byte>)
    requires b != []
    ensures ParseHexResult(Dump(b), true) == |b|
    ensures ParseHexStored(Dump(b), |b|) == b
  {
    DumpThenParse(b);
    hide Dump, AllHex, HexPrefix;
    var s := Dump(b);
    HexPrefixStops(s);
    assert Min(HexPrefix(s) / 2, |b|) == |b|;
    assert s[..2 * |b|] == s;
  }
}
