/** The HTTP endpoints of app/api/routers/files.py that hold logic: the
    upload endpoint, which decodes the 17-byte chunk header inline and
    checks the checksum before handing the payload to `save_chunk`, and the
    download endpoint, which resolves the Range header and streams the
    artifact. */
module FilesRouter {
  import opened Wrappers
  import opened Bytes
  import opened Text
  import opened Errors
  import opened FileUtils
  import opened Intervals
  import opened FileService

  /** A decoded upload body. */
  datatype Chunk = Chunk(start: nat, end: nat, payload: seq<byte>)

  /** The inline header decoding of `upload_file_chunk`: a body shorter than
      the header is refused, the rest is split into header and payload, and
      the checksum byte must equal the payload sum modulo 256. Unlike
      `validate_file_chunk_header`, an inverted range is not refused. */
  function ParseChunkBody(body: seq<byte>): (r: Result<Chunk, Error>)
    ensures r == Failure(ChunkTooSmall) <==> |body| < HeaderSize
    ensures r == Failure(ChecksumFailed) <==> |body| >= HeaderSize && body[16] != CalculateChecksum(body[HeaderSize..])
    ensures r.Failure? ==> r.error == ChunkTooSmall || r.error == ChecksumFailed
    ensures r.Success? ==> r.value.payload == body[HeaderSize..]
                           && CreateChunkHeader(r.value.start, r.value.end, body[16]) == Success(body[..HeaderSize])
  {
    U64LimitIsPow();
    if |body| < HeaderSize then Failure(ChunkTooSmall)
    else
      var payload := body[HeaderSize..];
      if body[16] != CalculateChecksum(payload) then Failure(ChecksumFailed)
      else
        var start := FromBigEndian(body[..8]);
        var end := FromBigEndian(body[8..16]);
        ToFromBigEndian(body[..8]);
        ToFromBigEndian(body[8..16]);
        assert body[..HeaderSize] == body[..8] + body[8..16] + [body[16]];
        Success(Chunk(start, end, payload))
  }

  /** `upload_file_chunk`: a refused body leaves the store untouched and
      never reaches `save_chunk`. */
  function UploadFileChunk(st: Store, name: string, body: seq<byte>, now: nat): (r: Outcome<Progress>)
    ensures ParseChunkBody(body).Failure? ==> r.store == st && r.result.Failure?
                                              && (r.result.error == ChunkTooSmall || r.result.error == ChecksumFailed)
    ensures r.result.Failure? ==> (StatusCode(r.result.error) == 400 <==> ParseChunkBody(body).Failure?)
    ensures r.result.Failure? && ParseChunkBody(body).Success? ==>
              r.result.error.ChunkMissingDuringAssembly? && StatusCode(r.result.error) == 500
  {
    match ParseChunkBody(body)
    case Failure(e) => Outcome(st, Failure(e))
    case Success(c) => SaveChunk(st, name, c.payload, c.start, c.end, now)
  }

  /** What a client sends: `create_chunk_header(s, e, calculate_checksum(p)) + p`. */
  function EncodeChunk(start: nat, end: nat, payload: seq<byte>): seq<byte>
    requires start < U64Limit && end < U64Limit
  {
    CreateChunkHeader(start, end, CalculateChecksum(payload)).value + payload
  }

  /** Round trip: an encoded chunk passes the checks and decodes to its
      range and payload, whatever the order of its bounds. */
  lemma EncodedChunkAccepted(start: nat, end: nat, payload: seq<byte>)
    requires start < U64Limit && end < U64Limit
    ensures ParseChunkBody(EncodeChunk(start, end, payload)) == Success(Chunk(start, end, payload))
  {
    var body := EncodeChunk(start, end, payload);
    var h := CreateChunkHeader(start, end, CalculateChecksum(payload)).value;
    HeaderFields(start, end, CalculateChecksum(payload));
    assert body[..8] == h[..8] && body[8..16] == h[8..16] && body[16] == h[16];
    assert body[HeaderSize..] == payload;
  }

  /** Changing one payload byte after encoding makes the upload fail the
      checksum check. */
  lemma CorruptedPayloadRejected(start: nat, end: nat, payload: seq<byte>, i: nat, b: byte)
    requires start < U64Limit && end < U64Limit
    requires i < |payload| && b != payload[i]
    ensures ParseChunkBody(EncodeChunk(start, end, payload)[HeaderSize + i := b]) == Failure(ChecksumFailed)
  {
    var body := EncodeChunk(start, end, payload);
    var bad := body[HeaderSize + i := b];
    EncodedChunkAccepted(start, end, payload);
    assert bad[HeaderSize..] == payload[i := b];
    assert bad[16] == body[16];
    ChecksumDetectsSingleByteChange(payload, i, b);
  }

  /** A header byte that is not the payload checksum gets the chunk refused,
      as with the deliberately wrong checksum 255. */
  lemma WrongChecksumRejected(start: nat, end: nat, checksum: byte, payload: seq<byte>)
    requires start < U64Limit && end < U64Limit
    requires checksum != CalculateChecksum(payload)
    ensures ParseChunkBody(CreateChunkHeader(start, end, checksum).value + payload) == Failure(ChecksumFailed)
  {
    var body := CreateChunkHeader(start, end, checksum).value + payload;
    assert body[HeaderSize..] == payload;
  }

  /** The router accepts an inverted range that the header validator of
      app/utils/file_utils.py refuses. */
  lemma InvertedRangeAccepted(start: nat, end: nat, payload: seq<byte>)
    requires end < start < U64Limit
    ensures ParseChunkBody(EncodeChunk(start, end, payload)).Success?
    ensures ValidateFileChunkHeader(EncodeChunk(start, end, payload)) == Failure(InvalidByteRange)
  {
    EncodedChunkAccepted(start, end, payload);
    var body := EncodeChunk(start, end, payload);
    var h := CreateChunkHeader(start, end, CalculateChecksum(payload)).value;
    HeaderFields(start, end, CalculateChecksum(payload));
    assert body[..8] == h[..8] && body[8..16] == h[8..16];
  }

  /** A whole file sent as one encoded chunk under a new name completes at
      once: every byte is reported received and the artifact is the
      payload. */
  lemma SingleChunkUploadCompletes(st: Store, name: string, payload: seq<byte>, now: nat)
    requires Consistent(st) && name !in st.meta
    requires 0 < |payload| < U64Limit
    ensures var r := UploadFileChunk(st, name, EncodeChunk(0, |payload| - 1, payload), now);
      r.result.Success? && r.result.value.state == Complete
      && r.result.value.bytesReceived == |payload| && name in r.store.artifacts && r.store.artifacts[name] == payload
  {
    var n := |payload|;
    EncodedChunkAccepted(0, n - 1, payload);
    assert payload[0..n - 1 + 1] == payload[0..n] == payload;
    assert UploadFileChunk(st, name, EncodeChunk(0, n - 1, payload), now) == SaveChunk(st, name, payload, 0, n - 1, now);
    WholeFileChunkCompletes(st, name, payload, now);
  }

  /** The evidently intended decoding: as `ParseChunkBody`, and an inverted
      range is refused as `validate_file_chunk_header` would refuse it. */
  function ParseChunkBodyChecked(body: seq<byte>): (r: Result<Chunk, Error>)
    ensures r.Success? <==> ParseChunkBody(body).Success? && ParseChunkBody(body).value.start <= ParseChunkBody(body).value.end
    ensures r.Success? ==> r == ParseChunkBody(body)
  {
    var c :- ParseChunkBody(body);
    if c.start > c.end then Failure(InvalidByteRange) else Success(c)
  }

  /** The upload endpoint with the range check in place. */
  function UploadFileChunkChecked(st: Store, name: string, body: seq<byte>, now: nat): (r: Outcome<Progress>)
    ensures ParseChunkBodyChecked(body).Failure? ==> r.store == st && r.result.Failure?
  {
    match ParseChunkBodyChecked(body)
    case Failure(e) => Outcome(st, Failure(e))
    case Success(c) => SaveChunk(st, name, c.payload, c.start, c.end, now)
  }

  /** With the range check, no record ever lists an inverted range, and an
      accepted chunk completes the upload exactly when every byte of
      `[0, total_bytes)` has been received. */
  lemma CheckedUploadCompletesIffAllReceived(st: Store, name: string, body: seq<byte>, now: nat)
    requires Consistent(st) && RangesOrdered(st)
    ensures var r := UploadFileChunkChecked(st, name, body, now);
      Consistent(r.store) && RangesOrdered(r.store)
    ensures ParseChunkBodyChecked(body).Success? ==>
      var c := ParseChunkBodyChecked(body).value;
      var md := Receive(st, name, c.payload, c.start, c.end, now).1;
      var r := UploadFileChunkChecked(st, name, body, now).result;
      r.Success? && md.totalBytes.Some?
      && (r.value.state == Complete <==> Union(md.chunks.Keys) == Prefix(md.totalBytes.value))
  {
    if ParseChunkBodyChecked(body).Success? {
      var c := ParseChunkBodyChecked(body).value;
      assert UploadFileChunkChecked(st, name, body, now) == SaveChunk(st, name, c.payload, c.start, c.end, now);
      SaveChunkKeepsConsistent(st, name, c.payload, c.start, c.end, now);
      SaveChunkKeepsRangesOrdered(st, name, c.payload, c.start, c.end, now);
      SaveChunkAssemblesIffAllReceived(st, name, c.payload, c.start, c.end, now);
    }
  }

  // ------------------------------------------------------------ download

  /** The resolved byte range of a download, inclusive. */
  datatype DownloadRange = DownloadRange(start: nat, end: int)

  /** No Range header, or an empty one (both falsy in Python). */
  predicate NoRange(header: Option<string>)
  {
    header.None? || header.value == ""
  }

  /** The final check of the range: refused when it starts at or past the
      end of the file or is empty. */
  function CheckSatisfiable(size: nat, start: nat, end: int): (r: Result<DownloadRange, Error>)
    ensures r.Success? <==> start < size && start <= end
    ensures r.Success? ==> r.value == DownloadRange(start, end)
    ensures r.Failure? ==> r.error == RangeNotSatisfiable
  {
    if start >= size || start > end then Failure(RangeNotSatisfiable) else Success(DownloadRange(start, end))
  }

  /** The header with every `bytes=` removed. */
  function RangeSpec(header: string): string
  {
    Replace(header, "bytes=", "")
  }

  /** The text before the first `-`: the start part. */
  function StartPart(spec: string): string
  {
    BeforeFirst(spec, '-')
  }

  /** The text between the first and a second `-`: the end part. */
  function EndPart(spec: string): string
  {
    BeforeFirst(AfterFirst(spec, '-'), '-')
  }

  /** Whether the parts of a spec with a `-` name an unsatisfiable range:
      the start (0 when empty) at or past the end of the file, or past the
      end (clamped to `size - 1`, and `size - 1` when empty). */
  predicate PartsUnsatisfiable(size: nat, spec: string)
    requires !Unparsable(StartPart(spec)) && !Unparsable(EndPart(spec))
  {
    var start := PartOr(StartPart(spec), 0);
    start >= size || start > Min(PartOr(EndPart(spec), size - 1), size - 1)
  }

  /** The Range logic of `download_file` for a file of `size` bytes. Every
      `bytes=` is removed; with a `-` present, the text before the first
      `-` is the start (0 when empty) and the text between the first and a
      second `-` the end (clamped to `size - 1`; `size - 1` when empty).
      An unparsable part is a bad request (400); a range that starts at or
      past the end of the file, or is empty, is not satisfiable (416). */
  function ResolveDownloadRange(size: nat, header: Option<string>): (r: Result<DownloadRange, Error>)
    ensures NoRange(header) ==> r == Success(DownloadRange(0, size - 1))
    ensures !NoRange(header) && r.Success? ==> r.value.start <= r.value.end < size
    ensures r.Failure? ==> r.error == RangeNotSatisfiable || r.error == InvalidRangeFormat
    ensures r == Failure(InvalidRangeFormat) <==>
              !NoRange(header) && '-' in RangeSpec(header.value)
              && (Unparsable(StartPart(RangeSpec(header.value))) || Unparsable(EndPart(RangeSpec(header.value))))
    ensures !NoRange(header) && '-' !in RangeSpec(header.value) ==>
              (r == Failure(RangeNotSatisfiable) <==> size == 0)
    ensures (!NoRange(header) && '-' in RangeSpec(header.value)
             && !Unparsable(StartPart(RangeSpec(header.value))) && !Unparsable(EndPart(RangeSpec(header.value)))) ==>
              (r == Failure(RangeNotSatisfiable) <==> PartsUnsatisfiable(size, RangeSpec(header.value)))
  {
    if NoRange(header) then Success(DownloadRange(0, size - 1))
    else
      var spec := RangeSpec(header.value);
      if '-' !in spec then CheckSatisfiable(size, 0, size - 1)
      else if Unparsable(StartPart(spec)) || Unparsable(EndPart(spec)) then Failure(InvalidRangeFormat)
      else CheckSatisfiable(size, PartOr(StartPart(spec), 0), Min(PartOr(EndPart(spec), size - 1), size - 1))
  }

  /** The parts of `bytes=x-5`: the start part is `x`, which `int()`
      refuses. */
  lemma NonNumericStartParts()
    ensures RangeSpec("bytes=x-5") == "x-5" && '-' in "x-5" && StartPart("x-5") == "x" && Unparsable("x")
  {
    assert "bytes=x-5" == "bytes=" + "x-5";
    assert 'b' !in "x-5";
    ReplaceLeading("bytes=", "x-5", "");
    ReplaceAbsent("x-5", "bytes=", "");
    assert "x-5" == "x" + ['-'] + "5";
    SplitAtFirst("x", '-', "5");
    assert !AllDigits("x");
  }

  /** A start part that is not a number is a bad request, not an
      unsatisfiable range. */
  lemma NonNumericStartIsBadRequest()
    ensures ResolveDownloadRange(26, Some("bytes=x-5")) == Failure(InvalidRangeFormat)
  {
    NonNumericStartParts();
  }

  /** The header a client writes for `[a, b]`. */
  function RangeHeader(a: nat, b: nat): string
  {
    "bytes=" + NatToDecimal(a) + "-" + NatToDecimal(b)
  }

  /** The pieces of `bytes=<a>-<b>` after the `bytes=` removal and the
      split. */
  lemma RangeHeaderParts(a: string, b: string)
    requires AllDigits(a) && AllDigits(b)
    ensures var spec := Replace("bytes=" + a + "-" + b, "bytes=", "");
      spec == a + "-" + b && '-' in spec
      && BeforeFirst(spec, '-') == a && BeforeFirst(AfterFirst(spec, '-'), '-') == b
  {
    assert "bytes=" + a + "-" + b == "bytes=" + (a + "-" + b);
    DigitsHaveNo(a, 'b');
    DigitsHaveNo(b, 'b');
    DigitsHaveNo(a, '-');
    DigitsHaveNo(b, '-');
    assert 'b' !in a + "-" + b;
    ReplaceLeading("bytes=", a + "-" + b, "");
    ReplaceAbsent(a + "-" + b, "bytes=", "");
    SplitAtFirst(a, '-', b);
    assert a + "-" + b == a + ['-'] + b;
    assert BeforeFirst(b, '-') == b;
  }

  /** `bytes=a-b` resolves to `[a, min(b, size - 1)]` when `a <= b` and `a`
      lies inside the file, and is unsatisfiable otherwise. */
  lemma ExplicitRangeResolves(size: nat, a: nat, b: nat)
    ensures var r := ResolveDownloadRange(size, Some(RangeHeader(a, b)));
      (a < size && a <= b ==> r == Success(DownloadRange(a, Min(b, size - 1))))
      && (a >= size || a > b ==> r == Failure(RangeNotSatisfiable))
  {
    ParseDecimal(a);
    ParseDecimal(b);
    RangeHeaderParts(NatToDecimal(a), NatToDecimal(b));
  }

  /** `bytes=5-15` on a 26-byte file selects bytes 5 through 15, eleven
      bytes. */
  lemma PartialDownloadOfTwentySixBytes(file: seq<byte>)
    requires |file| == 26
    ensures ResolveDownloadRange(26, Some("bytes=5-15")) == Success(DownloadRange(5, 15))
    ensures RangeBytes(file, 5, 15) == file[5..16] && |RangeBytes(file, 5, 15)| == 11
  {
    assert NatToDecimal(15) == NatToDecimal(1) + "5";
    assert RangeHeader(5, 15) == "bytes=5-15";
    ExplicitRangeResolves(26, 5, 15);
  }

  /** `bytes=-n` is read as start 0 and end `min(n, size - 1)`, not as the
      last `n` bytes that section 2.1 of RFC 7233 gives a suffix range. */
  lemma LeadingDashStartsAtZero(size: nat, n: nat)
    requires size > 0
    ensures ResolveDownloadRange(size, Some("bytes=-" + NatToDecimal(n)))
            == Success(DownloadRange(0, Min(n, size - 1)))
  {
    ParseDecimal(n);
    assert "bytes=-" + NatToDecimal(n) == "bytes=" + "" + "-" + NatToDecimal(n);
    RangeHeaderParts("", NatToDecimal(n));
  }

  /** `bytes=a-` runs to the end of the file. */
  lemma OpenRangeRunsToEnd(size: nat, a: nat)
    requires a < size
    ensures ResolveDownloadRange(size, Some("bytes=" + NatToDecimal(a) + "-"))
            == Success(DownloadRange(a, size - 1))
  {
    ParseDecimal(a);
    assert "bytes=" + NatToDecimal(a) + "-" == "bytes=" + NatToDecimal(a) + "-" + "";
    RangeHeaderParts(NatToDecimal(a), "");
  }

  /** The `Content-Range` value `bytes first-last/complete` of section 4.2 of
      RFC 7233. */
  datatype ContentRange = ContentRange(first: nat, last: int, completeLength: nat)

  /** A streaming response: 206 with a Content-Range when a Range header was
      sent, 200 without. */
  datatype Download = Download(partialContent: bool, contentLength: int, contentRange: Option<ContentRange>, body: seq<seq<byte>>)

  /** `download_file`: the status query (which may create a record) decides
      whether the file is downloadable; the range is resolved against the
      reported size; the body is the stream of `read_file_range`. */
  method DownloadFile(st: Store, name: string, header: Option<string>, now: nat)
    returns (st': Store, r: Result<Download, Error>)
    ensures st' == GetFileStatus(st, name, now).0
    ensures name !in st.artifacts ==> r == Failure(FileNotComplete)
    ensures r.Failure? ==> StatusCode(r.error) == (if name !in st.artifacts then 404 else if r.error == RangeNotSatisfiable then 416 else 400)
    ensures name in st.artifacts ==>
              (r.Failure? <==> ResolveDownloadRange(|st.artifacts[name]|, header).Failure?)
    ensures r.Failure? && name in st.artifacts ==> r.error == ResolveDownloadRange(|st.artifacts[name]|, header).error
    ensures r.Success? ==>
              var file := st.artifacts[name];
              var rg := ResolveDownloadRange(|file|, header).value;
              Concat(r.value.body) == RangeBytes(file, rg.start, rg.end)
              && r.value.contentLength == rg.end - rg.start + 1 == |Concat(r.value.body)|
              && (r.value.partialContent <==> !NoRange(header))
              && (r.value.contentRange.Some? <==> !NoRange(header))
              && (!NoRange(header) ==> r.value.contentRange.value == ContentRange(rg.start, rg.end, |file|))
              && (NoRange(header) ==> Concat(r.value.body) == file)
  {
    var status;
    st', status := GetFileStatus(st, name, now).0, GetFileStatus(st, name, now).1;
    if status.state == Pending || status.state == Partial {
      return st', Failure(FileNotComplete);
    }
    var size: nat := status.bytesReceived;
    var range := ResolveDownloadRange(size, header);
    if range.Failure? {
      return st', Failure(range.error);
    }
    var rg := range.value;
    var stream := ReadFileRange(st'.artifacts, name, rg.start, rg.end);
    var file := st.artifacts[name];
    assert NoRange(header) ==> file[0..Min(size, |file|)] == file;
    var contentRange := if NoRange(header) then None else Some(ContentRange(rg.start, rg.end, size));
    return st', Success(Download(!NoRange(header), rg.end - rg.start + 1, contentRange, stream.value));
  }
}
