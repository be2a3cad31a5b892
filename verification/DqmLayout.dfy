/** The bytes themselves: where each field of a file and of a record stands, in little-endian
    order, and what happens to data that has been cut short. */
module DqmLayout {
  import opened Common
  import opened DqmBytes
  import opened DqmContainer
  import opened DqmRecords

  /** The number that bytes stand for, least significant first. */
  function Value(s: Bytes): nat {
    if s == [] then 0 else s[0] + 0x100 * Value(s[1..])
  }

  lemma ValueOfTwo(a: Byte, b: Byte)
    ensures Value([a, b]) == a + 0x100 * b
  {
    assert [a, b][1..] == [b] && [b][1..] == [];
    assert Value([b]) == b + 0x100 * Value([]);
  }

  lemma {:induction false} ValueConcat(a: Bytes, b: Bytes)
    requires |a| == 2 || |a| == 4
    ensures Value(a + b) == Value(a) + (if |a| == 2 then 0x1_0000 else 0x1_0000_0000) * Value(b)
  {
    if |a| == 2 {
      var x, y := (a + b)[1..], a[1..];
      assert x[1..] == b && y[1..] == [] && x[0] == y[0] == a[1];
      assert Value(x) == a[1] + 0x100 * Value(b) && Value(y) == a[1] + 0x100 * Value([]);
    } else {
      assert a == a[..2] + a[2..] && a + b == a[..2] + (a[2..] + b);
      ValueConcat(a[..2], a[2..] + b);
      ValueConcat(a[..2], a[2..]);
      ValueConcat(a[2..], b);
    }
  }

  lemma U16Value(s: Bytes, pos: nat)
    requires pos + 2 <= |s|
    ensures U16At(s, pos) == Value(s[pos..pos + 2])
  {
    assert s[pos..pos + 2] == [s[pos], s[pos + 1]];
    ValueOfTwo(s[pos], s[pos + 1]);
  }

  lemma U32Value(s: Bytes, pos: nat)
    requires pos + 4 <= |s|
    ensures U32At(s, pos) == Value(s[pos..pos + 4])
  {
    U16Value(s, pos);
    U16Value(s, pos + 2);
    ValueConcat(s[pos..pos + 2], s[pos + 2..pos + 4]);
    assert s[pos..pos + 4] == s[pos..pos + 2] + s[pos + 2..pos + 4];
  }

  lemma U64Value(s: Bytes, pos: nat)
    requires pos + 8 <= |s|
    ensures U64At(s, pos) == Value(s[pos..pos + 8])
  {
    U32Value(s, pos);
    U32Value(s, pos + 4);
    ValueConcat(s[pos..pos + 4], s[pos + 4..pos + 8]);
    assert s[pos..pos + 8] == s[pos..pos + 4] + s[pos + 4..pos + 8];
  }

  lemma PutU16Value(v: U16)
    ensures Value(PutU16(v)) == v
  {
    U16Codec(PutU16(v), 0, v);
    U16Value(PutU16(v), 0);
    assert PutU16(v)[0..2] == PutU16(v);
  }

  lemma PutU32Value(v: U32)
    ensures Value(PutU32(v)) == v
  {
    U32Codec(PutU32(v), 0, v);
    U32Value(PutU32(v), 0);
    assert PutU32(v)[0..4] == PutU32(v);
  }

  lemma PutU64Value(v: U64)
    ensures Value(PutU64(v)) == v
  {
    U64Codec(PutU64(v), 0, v);
    U64Value(PutU64(v), 0);
    assert PutU64(v)[0..8] == PutU64(v);
  }

  // ----- files

  lemma FixedFields()
    ensures MAGIC == [0x44, 0x51, 0x4D, 0x49, 0x46, 0x00]
    ensures PutU16(HEADER_SIZE) == [32, 0] && PutU32(VERSION) == [25, 0, 1, 0]
  {
  }

  lemma HeaderLayout(payload: Bytes, headerSum: U64)
    requires |payload| <= MAX_PAYLOAD
    ensures var h := Header(payload, headerSum);
      && h[..6] == [0x44, 0x51, 0x4D, 0x49, 0x46, 0x00] && h[6..8] == [32, 0] && h[8..12] == [25, 0, 1, 0]
      && Value(h[12..16]) == |payload| && Value(h[16..24]) == Sum(payload) && Value(h[24..32]) == headerSum
  {
    HeaderFields(payload, headerSum);
    FixedFields();
    HeaderValues(payload, headerSum);
  }

  lemma HeaderValues(payload: Bytes, headerSum: U64)
    requires |payload| <= MAX_PAYLOAD
    ensures Value(PutU32(|payload|)) == |payload|
    ensures Value(PutU64(ChecksumOf(payload))) == Sum(payload) && Value(PutU64(headerSum)) == headerSum
  {
    PutU32Value(|payload|);
    PutU64Value(ChecksumOf(payload));
    PutU64Value(headerSum);
    PayloadSumNeverWraps(payload);
  }

  lemma {:induction false} SumOfZeros(n: nat)
    ensures Sum(seq(n, _ => 0)) == 0
  {
    if n > 0 {
      SumOfZeros(n - 1);
      assert seq(n, _ => 0 as Byte)[..n - 1] == seq(n - 1, _ => 0);
    }
  }

  /** The header checksum is the sum of the 24 bytes before it. */
  lemma HeaderSumIs(payload: Bytes)
    requires |payload| <= MAX_PAYLOAD
    ensures HeaderSum(payload) == Sum(Header(payload, 0)[..24])
  {
    var h := Header(payload, 0);
    HeaderFields(payload, 0);
    assert PutU64(0) == seq(8, _ => 0) && h == h[..24] + h[24..32];
    SumConcat(h[..24], h[24..32]);
    SumOfZeros(8);
    SumBound(h);
  }

  lemma SameFront(payload: Bytes, headerSum: U64)
    requires |payload| <= MAX_PAYLOAD
    ensures Header(payload, headerSum)[..24] == Header(payload, 0)[..24]
  {
  }

  /** A file: the magic, header size 32, version 1.25, the payload's length, the sum of its
      bytes, the sum of the 24 bytes before, and the payload. */
  lemma FileLayout(payload: Bytes)
    requires |payload| <= 4294967295
    ensures var f := FileData(payload);
      && |f| == 32 + |payload| && f[32..] == payload
      && f[..6] == [0x44, 0x51, 0x4D, 0x49, 0x46, 0x00] && f[6..8] == [32, 0] && f[8..12] == [25, 0, 1, 0]
      && Value(f[12..16]) == |payload| && Value(f[16..24]) == Sum(payload) && Value(f[24..32]) == Sum(f[..24])
  {
    var f, h := FileData(payload), Header(payload, HeaderSum(payload));
    HeaderLayout(payload, HeaderSum(payload));
    HeaderSumIs(payload);
    SameFront(payload, HeaderSum(payload));
    assert f == h + payload && f[..24] == h[..24];
    assert f[..6] == h[..6] && f[6..8] == h[6..8] && f[8..12] == h[8..12];
    assert f[12..16] == h[12..16] && f[16..24] == h[16..24] && f[24..32] == h[24..32];
  }

  // ----- records

  /** A record: id, length, data, and zeros up to the next multiple of four. */
  lemma RecordLayout(r: Rec)
    requires |r.data| <= 65535
    ensures var f, n := Frame(r), |r.data|;
      && |f| % 4 == 0 && 4 + n <= |f| < 8 + n
      && Value(f[0..2]) == r.id && Value(f[2..4]) == n && f[4..4 + n] == r.data
      && forall i :: 4 + n <= i < |f| ==> f[i] == 0
  {
    FrameParts(r);
    PutU16Value(r.id);
    PutU16Value(|r.data|);
  }

  /** A record that has been cut short is an error, not the end of the stream. */
  lemma CutRecordIsRejected(r: Rec, n: nat)
    requires Fits(r) && 0 < n < |Frame(r)|
    ensures ReadAt(Frame(r)[..n], 0).Err? && ReadAt(Frame(r)[..n], 0) != Err(EndOfStream)
  {
    var f := Frame(r)[..n];
    if n >= 4 {
      FrameParts(r);
      assert f[2..4] == Frame(r)[2..4];
      U16Codec(f, 2, |r.data|);
    }
  }

  lemma ReadAtShifts(a: Bytes, b: Bytes, pos: nat)
    requires |a| % 4 == 0
    ensures ReadAt(a + b, |a| + pos) == match ReadAt(b, pos)
      case Err(e) => Err(e)
      case Ok((r, next)) => Ok((r, |a| + next))
  {
    if pos + 4 <= |b| {
      assert (a + b)[|a| + pos] == b[pos] && (a + b)[|a| + pos + 1] == b[pos + 1];
      assert (a + b)[|a| + pos + 2] == b[pos + 2] && (a + b)[|a| + pos + 3] == b[pos + 3];
      var len := U16At(b, pos + 2);
      AlignShift(|a|, pos + 4 + len);
      if pos + 4 + len <= |b| {
        assert (a + b)[|a| + pos + 4..|a| + pos + 4 + len] == b[pos + 4..pos + 4 + len];
      }
    }
  }

  /** So a stream cut inside a record gives the records before it and then an error. */
  lemma CutStreamIsRejected(rs: seq<Rec>, r: Rec, n: nat)
    requires (forall i :: 0 <= i < |rs| ==> Fits(rs[i])) && Fits(r) && 0 < n < |Frame(r)|
    ensures ReadAt(FrameAll(rs) + Frame(r)[..n], |FrameAll(rs)|).Err?
    ensures ReadAt(FrameAll(rs) + Frame(r)[..n], |FrameAll(rs)|) != Err(EndOfStream)
  {
    CutRecordIsRejected(r, n);
    ReadAtShifts(FrameAll(rs), Frame(r)[..n], 0);
  }
}
