// Bytes, byte sums and the memory primitives the C code is built from.
module Bytes {
  // uint8_t as a number; every wrap-around is written out where the C code wraps.
  type byte = x: int | 0 <= x < 256

  datatype Option<+T> = None | Some(value: T)

  function Sum(s: seq<byte>): nat {
    if s == [] then 0 else s[0] + Sum(s[1..])
  }

  lemma {:induction false} SumAppend(a: seq<byte>, b: seq<byte>)
    ensures Sum(a + b) == Sum(a) + Sum(b)
  {
    if a == [] {
      assert a + b == b;
    } else {
      assert (a + b)[1..] == a[1..] + b;
      SumAppend(a[1..], b);
    }
  }

  // Sum(s[..i + 1]) one step at a time, for the accumulation loops.
  lemma SumSnoc(s: seq<byte>, i: nat)
    requires i < |s|
    ensures Sum(s[..i + 1]) == Sum(s[..i]) + s[i]
  {
    assert s[..i + 1] == s[..i] + [s[i]];
    SumAppend(s[..i], [s[i]]);
  }

  ghost predicate ZeroSum(s: seq<byte>) {
    Sum(s) % 256 == 0
  }

  // The zero checksum of the FRU and multirecord formats: minus the sum, in eight bits.
  function Complement(s: seq<byte>): byte {
    (256 - Sum(s) % 256) % 256
  }

  // A trailing checksum byte makes the whole sum to zero exactly when it is the complement.
  lemma ComplementCloses(s: seq<byte>, c: byte)
    ensures ZeroSum(s + [c]) <==> c == Complement(s)
  {
    SumAppend(s, [c]);
    assert Sum([c]) == c;
    hide Sum;
    CloseSum(Sum(s), c);
  }

  lemma CloseSum(n: nat, c: byte)
    ensures (n + c) % 256 == 0 <==> c == (256 - n % 256) % 256
  {
  }

  // The middle piece of a text that stands in some data.
  lemma Middle(data: seq<byte>, off: nat, a: seq<byte>, e: seq<byte>, z: seq<byte>)
    requires off + |a + e + z| <= |data| && data[off..off + |a + e + z|] == a + e + z
    ensures data[off + |a|..off + |a| + |e|] == e
  {
    var w := data[off..off + |a + e + z|];
    assert w[|a|..|a| + |e|] == e;
    assert forall i :: |a| <= i < |a| + |e| ==> data[off + i] == w[i];
    assert data[off + |a|..off + |a| + |e|] == w[|a|..|a| + |e|];
  }

  function Zeros(n: nat): (s: seq<byte>)
    ensures |s| == n && forall i :: 0 <= i < n ==> s[i] == 0
  {
    seq(n, _ => 0)
  }

  function Min(a: int, b: int): int {
    if a < b then a else b
  }

  // s with the bytes from `at` on replaced by t.
  function Splice(s: seq<byte>, at: nat, t: seq<byte>): (r: seq<byte>)
    requires at + |t| <= |s|
    ensures |r| == |s|
    ensures forall i :: 0 <= i < |s| ==> r[i] == if at <= i < at + |t| then t[i - at] else s[i]
  {
    s[..at] + t + s[at + |t|..]
  }

  // One more byte stored behind a copied prefix.
  lemma SpliceSnoc(s: seq<byte>, at: nat, t: seq<byte>, v: byte)
    requires at + |t| < |s|
    ensures Splice(s, at, t)[at + |t| := v] == Splice(s, at, t + [v])
  {
  }

  // Copies n bytes between distinct buffers.
  method Memcpy(dst: array<byte>, di: nat, src: array<byte>, si: nat, n: nat)
    requires dst != src
    requires di + n <= dst.Length && si + n <= src.Length
    modifies dst
    ensures dst[..] == Splice(old(dst[..]), di, src[si..si + n])
  {
    forall i | 0 <= i < n {
      dst[di + i] := src[si + i];
    }
  }

  // Clears n bytes.
  method Memzero(dst: array<byte>, di: nat, n: nat)
    requires di + n <= dst.Length
    modifies dst
    ensures dst[..] == Splice(old(dst[..]), di, Zeros(n))
  {
    forall i | 0 <= i < n {
      dst[di + i] := 0;
    }
  }

  // The accumulation loop shared by every checksum in the code: a uint8_t sum.
  method SumBytes(d: array<byte>, at: nat, n: nat) returns (acc: byte)
    requires at + n <= d.Length
    ensures acc == Sum(d[at..at + n]) % 256
  {
    acc := 0;
    ghost var w := d[at..at + n];
    for i := 0 to n
      invariant acc == Sum(w[..i]) % 256
    {
      SumSnoc(w, i);
      acc := (acc + d[at + i]) % 256;
    }
    assert w[..n] == w;
  }

  // ipmi_csum: minus the sum of s bytes.
  method IpmiCsum(d: array<byte>, at: nat, s: nat) returns (c: byte)
    requires at + s <= d.Length
    ensures c == Complement(d[at..at + s])
    ensures c == 0 <==> ZeroSum(d[at..at + s])
  {
    var acc: nat := SumBytes(d, at, s);
    c := (256 - acc) % 256;
  }

  // fru_calc_checksum: the value the last of len bytes must have. len - 1 wraps for
  // len == 0, so the function is only meaningful for a non-empty area.
  method FruCalcChecksum(area: array<byte>, at: nat, len: nat) returns (c: byte)
    requires 1 <= len && at + len <= area.Length
    ensures c == Complement(area[at..at + len - 1])
  {
    var checksum: nat := SumBytes(area, at, len - 1);
    c := (256 - checksum) % 256;
  }

  // fru_checksum_is_valid accepts an area exactly when all its bytes sum to zero.
  method FruChecksumIsValid(area: array<byte>, at: nat, len: nat) returns (ok: bool)
    requires 1 <= len && at + len <= area.Length
    ensures ok <==> ZeroSum(area[at..at + len])
  {
    var c := FruCalcChecksum(area, at, len);
    ok := area[at + len - 1] == c;
    assert area[at..at + len] == area[at..at + len - 1] + [area[at + len - 1]];
    ComplementCloses(area[at..at + len - 1], area[at + len - 1]);
  }
}
