/** The 17-byte chunk header: big-endian u64 `start_byte`, big-endian u64
    `end_byte`, then one checksum byte equal to the sum of the payload bytes
    modulo 256 (app/utils/file_utils.py). */
module FileUtils {
  import opened Wrappers
  import opened Bytes
  import opened Errors

  const HeaderSize: nat := 17
  const FieldSize: nat := 8

  /** Largest value plus one that `to_bytes(8, 'big')` accepts. */
  const U64Limit: nat := 0x1_0000_0000_0000_0000

  lemma U64LimitIsPow()
    ensures Pow256(FieldSize) == U64Limit
  {
  }

  /** The decoded header: start, end and the checksum byte. */
  datatype Header = Header(start: nat, end: nat, checksum: byte)

  /** `calculate_checksum(data)`: the byte sum modulo 256. */
  function CalculateChecksum(data: seq<byte>): byte
  {
    Sum(data) % 256
  }

  /** Any single-byte change of the data changes the checksum. */
  lemma ChecksumDetectsSingleByteChange(data: seq<byte>, i: nat, b: byte)
    requires i < |data| && b != data[i]
    ensures CalculateChecksum(data[i := b]) != CalculateChecksum(data)
  {
    SumUpdate(data, i, b);
  }

  /** `create_chunk_header(start, end, checksum)`: 17 bytes, or
      OverflowError when a field is negative or does not fit in 8 bytes. */
  function CreateChunkHeader(start: int, end: int, checksum: int): (r: Result<seq<byte>, Error>)
    ensures r.Success? <==> 0 <= start < U64Limit && 0 <= end < U64Limit
    ensures r.Failure? ==> r.error == ValueOverflow
    ensures r.Success? ==> |r.value| == HeaderSize && r.value[16] == checksum % 256
  {
    U64LimitIsPow();
    if !(0 <= start < U64Limit) || !(0 <= end < U64Limit) then Failure(ValueOverflow)
    else Success(ToBigEndian(start, FieldSize) + ToBigEndian(end, FieldSize) + [checksum % 256])
  }

  /** `validate_file_chunk_header(data)`: reads the first 17 bytes (any
      further bytes are ignored), rejecting a short header and an inverted
      range. */
  function ValidateFileChunkHeader(data: seq<byte>): (r: Result<Header, Error>)
    ensures r.Failure? ==> r.error == InvalidHeaderSize || r.error == InvalidByteRange
    ensures r == Failure(InvalidHeaderSize) <==> |data| < HeaderSize
    ensures r.Success? ==> r.value.start <= r.value.end < U64Limit && r.value.checksum == data[16]
  {
    U64LimitIsPow();
    if |data| < HeaderSize then Failure(InvalidHeaderSize)
    else
      var start := FromBigEndian(data[..8]);
      var end := FromBigEndian(data[8..16]);
      if end < start then Failure(InvalidByteRange)
      else Success(Header(start, end, data[16]))
  }

  /** The header fields as read back by the validator. */
  lemma HeaderFields(start: nat, end: nat, checksum: int)
    requires start < U64Limit && end < U64Limit
    ensures var h := CreateChunkHeader(start, end, checksum).value;
      FromBigEndian(h[..8]) == start && FromBigEndian(h[8..16]) == end && h[16] == checksum % 256
  {
    U64LimitIsPow();
    var h := CreateChunkHeader(start, end, checksum).value;
    assert h[..8] == ToBigEndian(start, FieldSize);
    assert h[8..16] == ToBigEndian(end, FieldSize);
    FromToBigEndian(start, FieldSize);
    FromToBigEndian(end, FieldSize);
  }

  /** Round trip: validating a created header returns its fields, with the
      checksum reduced modulo 256, and trailing payload bytes do not matter. */
  lemma ValidateCreatedHeader(start: nat, end: nat, checksum: int, payload: seq<byte>)
    requires start <= end < U64Limit
    ensures ValidateFileChunkHeader(CreateChunkHeader(start, end, checksum).value + payload)
            == Success(Header(start, end, checksum % 256))
  {
    var h := CreateChunkHeader(start, end, checksum).value;
    HeaderFields(start, end, checksum);
    var d := h + payload;
    assert d[..8] == h[..8] && d[8..16] == h[8..16] && d[16] == h[16];
  }

  /** A header with an inverted range is created without complaint but
      refused by the validator. */
  lemma InvertedHeaderRejected(start: nat, end: nat, checksum: int)
    requires end < start < U64Limit
    ensures CreateChunkHeader(start, end, checksum).Success?
    ensures ValidateFileChunkHeader(CreateChunkHeader(start, end, checksum).value) == Failure(InvalidByteRange)
  {
    HeaderFields(start, end, checksum);
  }

  /** Every 17 bytes are the encoding of the fields they decode to. */
  lemma CreateValidatedHeader(data: seq<byte>)
    requires ValidateFileChunkHeader(data).Success?
    ensures var h := ValidateFileChunkHeader(data).value;
      CreateChunkHeader(h.start, h.end, h.checksum) == Success(data[..HeaderSize])
  {
    ToFromBigEndian(data[..8]);
    ToFromBigEndian(data[8..16]);
    assert data[..HeaderSize] == data[..8] + data[8..16] + [data[16]];
  }
}
