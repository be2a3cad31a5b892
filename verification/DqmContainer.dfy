/** The module interface file: a 32-byte header with two checksums, then the payload. */
module DqmContainer {
  import opened Common
  import opened DqmBytes

  const MAGIC: Bytes := [0x44, 0x51, 0x4D, 0x49, 0x46, 0x00]  // "DQMIF\0"
  const HEADER_SIZE: nat := 32
  const VERSION: U32 := 0x1_0019      // the version that is written: 1.25
  const MIN_VERSION: U32 := 0x1_0019  // the oldest version that is read
  const MAX_PAYLOAD: nat := 0xFFFF_FFFF

  datatype FileError = TooSmall | BadMagic | BadHeaderSize | BadVersion | SizeMismatch | BadHeaderSum | BadPayloadSum

  // ----- writing

  function Header(payload: Bytes, headerSum: U64): (h: Bytes)
    requires |payload| <= MAX_PAYLOAD
    ensures |h| == HEADER_SIZE
  {
    MAGIC + PutU16(HEADER_SIZE) + PutU32(VERSION) + PutU32(|payload|) + PutU64(ChecksumOf(payload)) + PutU64(headerSum)
  }

  /** The checksum of a header is taken with its own field zeroed. */
  function HeaderSum(payload: Bytes): U64
    requires |payload| <= MAX_PAYLOAD
  {
    ChecksumOf(Header(payload, 0))
  }

  function FileData(payload: Bytes): (data: Bytes)
    requires |payload| <= MAX_PAYLOAD
    ensures |data| == HEADER_SIZE + |payload|
  {
    Header(payload, HeaderSum(payload)) + payload
  }

  // ----- reading

  /** The file's header with the checksum field zeroed. */
  function ZeroedHeader(data: Bytes): Bytes
    requires |data| >= HEADER_SIZE
  {
    data[..24] + seq(8, _ => 0)
  }

  function ReadFile(data: Bytes): Result<Bytes, FileError> {
    if |data| < HEADER_SIZE then Err(TooSmall)
    else if data[..6] != MAGIC then Err(BadMagic)
    else if U16At(data, 6) != HEADER_SIZE then Err(BadHeaderSize)
    else if U32At(data, 8) < MIN_VERSION || U32At(data, 8) > VERSION then Err(BadVersion)
    else if HEADER_SIZE + U32At(data, 12) != |data| then Err(SizeMismatch)
    else if ChecksumOf(ZeroedHeader(data)) != U64At(data, 24) then Err(BadHeaderSum)
    else if ChecksumOf(data[HEADER_SIZE..]) != U64At(data, 16) then Err(BadPayloadSum)
    else Ok(data[HEADER_SIZE..])
  }

  // ----- the reader accepts exactly the writer's files

  /** The header laid out field by field. */
  lemma HeaderFields(payload: Bytes, headerSum: U64)
    requires |payload| <= MAX_PAYLOAD
    ensures var h := Header(payload, headerSum);
      && h[..6] == MAGIC && h[6..8] == PutU16(HEADER_SIZE) && h[8..12] == PutU32(VERSION)
      && h[12..16] == PutU32(|payload|) && h[16..24] == PutU64(ChecksumOf(payload)) && h[24..32] == PutU64(headerSum)
  {
  }

  lemma SixParts(h: Bytes)
    requires |h| == 32
    ensures h == h[..6] + h[6..8] + h[8..12] + h[12..16] + h[16..24] + h[24..32]
  {
  }

  /** Six field values determine the header and are determined by it. */
  lemma HeaderIs(data: Bytes, payload: Bytes, headerSum: U64)
    requires |data| >= HEADER_SIZE && |payload| <= MAX_PAYLOAD
    ensures data[..HEADER_SIZE] == Header(payload, headerSum) <==>
      && data[..6] == MAGIC && U16At(data, 6) == HEADER_SIZE && U32At(data, 8) == VERSION
      && U32At(data, 12) == |payload| && U64At(data, 16) == ChecksumOf(payload) && U64At(data, 24) == headerSum
  {
    var h := data[..HEADER_SIZE];
    assert h[..6] == data[..6] && h[6..8] == data[6..8] && h[8..12] == data[8..12]
        && h[12..16] == data[12..16] && h[16..24] == data[16..24] && h[24..32] == data[24..32];
    U16Codec(data, 6, HEADER_SIZE);
    U32Codec(data, 8, VERSION);
    U32Codec(data, 12, |payload|);
    U64Codec(data, 16, ChecksumOf(payload));
    U64Codec(data, 24, headerSum);
    HeaderFields(payload, headerSum);
    SixParts(h);
    SixParts(Header(payload, headerSum));
  }

  lemma ZeroedIsHeader(data: Bytes, payload: Bytes, headerSum: U64)
    requires |data| >= HEADER_SIZE && |payload| <= MAX_PAYLOAD && data[..HEADER_SIZE] == Header(payload, headerSum)
    ensures ZeroedHeader(data) == Header(payload, 0)
  {
    assert PutU64(0) == seq(8, _ => 0);
    assert data[..24] == data[..HEADER_SIZE][..24];
    assert Header(payload, headerSum)[..24] == Header(payload, 0)[..24];
    assert Header(payload, 0) == Header(payload, 0)[..24] + PutU64(0);
  }

  /** Reading succeeds with `payload` exactly when the file is what is written for it. */
  lemma ReadInvertsWrite(data: Bytes, payload: Bytes)
    ensures ReadFile(data) == Ok(payload) <==> |payload| <= MAX_PAYLOAD && data == FileData(payload)
  {
    if |payload| <= MAX_PAYLOAD && data == FileData(payload) {
      assert data[..HEADER_SIZE] == Header(payload, HeaderSum(payload)) && data[HEADER_SIZE..] == payload;
      HeaderIs(data, payload, HeaderSum(payload));
      ZeroedIsHeader(data, payload, HeaderSum(payload));
    }
    if ReadFile(data) == Ok(payload) {
      var sum := U64At(data, 24);
      HeaderIs(data, payload, sum);
      ZeroedIsHeader(data, payload, sum);
      assert data == data[..HEADER_SIZE] + data[HEADER_SIZE..];
    }
  }

  /** The lengths of files the format can hold never wrap the payload checksum. */
  lemma PayloadSumNeverWraps(payload: Bytes)
    requires |payload| <= MAX_PAYLOAD
    ensures ChecksumOf(payload) == Sum(payload)
  {
    SumBound(payload);
  }

  /** Changing one payload byte changes the checksum field of the header. */
  lemma ChecksumFieldDiffers(payload: Bytes, j: nat, b: Byte)
    requires |payload| <= MAX_PAYLOAD && j < |payload| && b != payload[j]
    ensures FileData(payload[j := b])[16..24] != FileData(payload)[16..24]
  {
    var other := payload[j := b];
    SumUpdate(payload, j, b);
    PayloadSumNeverWraps(payload);
    PayloadSumNeverWraps(other);
    HeaderFields(payload, HeaderSum(payload));
    HeaderFields(other, HeaderSum(other));
    assert FileData(payload)[16..24] == PutU64(ChecksumOf(payload));
    assert FileData(other)[16..24] == PutU64(ChecksumOf(other));
    U64Codec(PutU64(ChecksumOf(payload)), 0, ChecksumOf(payload));
    U64Codec(PutU64(ChecksumOf(payload)), 0, ChecksumOf(other));
  }

  /** A written file with exactly one byte changed is always rejected. */
  lemma OneChangedByteIsRejected(payload: Bytes, i: nat, b: Byte)
    requires |payload| <= MAX_PAYLOAD && i < HEADER_SIZE + |payload| && b != FileData(payload)[i]
    ensures ReadFile(FileData(payload)[i := b]).Err?
  {
    var data := FileData(payload);
    var bad := data[i := b];
    var other := bad[HEADER_SIZE..];
    if i < HEADER_SIZE {
      assert other == payload;
    } else {
      assert other == payload[i - HEADER_SIZE := b];
      ChecksumFieldDiffers(payload, i - HEADER_SIZE, b);
      assert bad[16..24] == data[16..24];
    }
    assert bad != FileData(other);
    ReadInvertsWrite(bad, other);
  }
}
