/** Bytes, little-endian integers and the checksum of the module interface format. */
module DqmBytes {

  type Byte = b: int | 0 <= b < 0x100
  type Bytes = seq<Byte>

  type U16 = v: int | 0 <= v < 0x1_0000
  type U32 = v: int | 0 <= v < 0x1_0000_0000
  type U64 = v: int | 0 <= v < 0x1_0000_0000_0000_0000

  function PutU16(v: U16): (r: Bytes)
    ensures |r| == 2
  {
    [v % 0x100, v / 0x100]
  }

  function PutU32(v: U32): (r: Bytes)
    ensures |r| == 4
  {
    PutU16(v % 0x1_0000) + PutU16(v / 0x1_0000)
  }

  function PutU64(v: U64): (r: Bytes)
    ensures |r| == 8
  {
    PutU32(v % 0x1_0000_0000) + PutU32(v / 0x1_0000_0000)
  }

  function U16At(s: Bytes, pos: nat): U16
    requires pos + 2 <= |s|
  {
    s[pos] as int + 0x100 * s[pos + 1] as int
  }

  function U32At(s: Bytes, pos: nat): U32
    requires pos + 4 <= |s|
  {
    U16At(s, pos) as int + 0x1_0000 * U16At(s, pos + 2) as int
  }

  function U64At(s: Bytes, pos: nat): U64
    requires pos + 8 <= |s|
  {
    U32At(s, pos) as int + 0x1_0000_0000 * U32At(s, pos + 4) as int
  }

  /** Reading at `pos` gives `v` exactly when the bytes there are those written for `v`. */
  lemma U16Codec(s: Bytes, pos: nat, v: U16)
    requires pos + 2 <= |s|
    ensures U16At(s, pos) == v <==> s[pos..pos + 2] == PutU16(v)
  {
  }

  lemma TwoHalves(lo: U16, hi: U16, v: U32)
    ensures lo as int + 0x1_0000 * hi as int == v <==> lo == v % 0x1_0000 && hi == v / 0x1_0000
  {
  }

  lemma U32Codec(s: Bytes, pos: nat, v: U32)
    requires pos + 4 <= |s|
    ensures U32At(s, pos) == v <==> s[pos..pos + 4] == PutU32(v)
  {
    U16Codec(s, pos, v % 0x1_0000);
    U16Codec(s, pos + 2, v / 0x1_0000);
    TwoHalves(U16At(s, pos), U16At(s, pos + 2), v);
    SamePairs(s[pos..pos + 2], s[pos + 2..pos + 4], PutU16(v % 0x1_0000), PutU16(v / 0x1_0000));
    assert s[pos..pos + 4] == s[pos..pos + 2] + s[pos + 2..pos + 4];
  }

  lemma TwoWords(lo: U32, hi: U32, v: U64)
    ensures lo as int + 0x1_0000_0000 * hi as int == v <==> lo == v % 0x1_0000_0000 && hi == v / 0x1_0000_0000
  {
  }

  lemma U64Codec(s: Bytes, pos: nat, v: U64)
    requires pos + 8 <= |s|
    ensures U64At(s, pos) == v <==> s[pos..pos + 8] == PutU64(v)
  {
    U32Codec(s, pos, v % 0x1_0000_0000);
    U32Codec(s, pos + 4, v / 0x1_0000_0000);
    TwoWords(U32At(s, pos), U32At(s, pos + 4), v);
    SamePairs(s[pos..pos + 4], s[pos + 4..pos + 8], PutU32(v % 0x1_0000_0000), PutU32(v / 0x1_0000_0000));
    assert s[pos..pos + 8] == s[pos..pos + 4] + s[pos + 4..pos + 8];
  }

  lemma SamePairs(a: Bytes, b: Bytes, c: Bytes, d: Bytes)
    requires |a| == |c| && |b| == |d|
    ensures a + b == c + d <==> a == c && b == d
  {
    assert (a + b)[..|a|] == a && (a + b)[|a|..] == b && (c + d)[..|c|] == c && (c + d)[|c|..] == d;
  }

  function Sum(s: Bytes): nat {
    if s == [] then 0 else Sum(s[..|s| - 1]) + s[|s| - 1]
  }

  /** The 64-bit sum of the bytes. */
  function ChecksumOf(s: Bytes): U64 {
    Sum(s) % 0x1_0000_0000_0000_0000
  }

  lemma {:induction false} SumBound(s: Bytes)
    ensures Sum(s) <= 0xFF * |s|
  {
    if s != [] {
      SumBound(s[..|s| - 1]);
    }
  }

  lemma {:induction false} SumConcat(a: Bytes, b: Bytes)
    ensures Sum(a + b) == Sum(a) + Sum(b)
    decreases |b|
  {
    if b == [] {
      assert a + b == a;
    } else {
      SumConcat(a, b[..|b| - 1]);
      assert (a + b)[..|a + b| - 1] == a + b[..|b| - 1];
    }
  }

  /** Changing one byte changes the sum by the difference. */
  lemma SumUpdate(s: Bytes, i: nat, b: Byte)
    requires i < |s|
    ensures Sum(s[i := b]) == Sum(s) - s[i] + b
  {
    assert s == s[..i] + [s[i]] + s[i + 1..];
    assert s[i := b] == s[..i] + [b] + s[i + 1..];
    SumConcat(s[..i] + [s[i]], s[i + 1..]);
    SumConcat(s[..i], [s[i]]);
    SumConcat(s[..i] + [b], s[i + 1..]);
    SumConcat(s[..i], [b]);
  }

  /** The loop of Checksum. */
  method Checksum(data: Bytes) returns (result: U64)
    ensures result == ChecksumOf(data)
  {
    result := 0;
    for i := 0 to |data|
      invariant result == ChecksumOf(data[..i])
    {
      assert data[..i + 1][..i] == data[..i];
      result := (result + data[i]) % 0x1_0000_0000_0000_0000;
    }
    assert data[..|data|] == data;
  }
}
