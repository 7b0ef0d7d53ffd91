# Chunked-upload engine of HiPER-Automotive, in Dafny

This project models the resumable upload service of a FastAPI server.

A device uploads a file as chunks. Each chunk is a 17-byte binary header followed by the payload. The header holds a big-endian u64 `start_byte`, a big-endian u64 `end_byte` and a checksum byte equal to the payload sum modulo 256.

The service works in four stages:
- **Recording.** It stages each payload and records the chunk range in a per-file metadata record.
- **Progress.** It merges the recorded ranges to derive `bytes_received` and `next_expected_byte`.
- **Assembly.** Once `bytes_received` reaches `total_bytes`, it writes every staged payload at its start offset into the final artifact.
- **Download.** It streams the artifact whole or under a Range header.

A background reaper turns stale partial uploads into `<name>.partial` files. An older helper module has its own Range parsing, block iterator, ranged response and numbered-chunk assembly.

The filesystem is abstracted to three maps:
- `meta`: filename to record;
- `staging`: (filename, range) to payload;
- `artifacts`: filename to bytes.

Other abstractions:
- Clocks become a `now: nat` parameter.
- Every `HTTPException` and Python exception becomes a constructor of `Errors.Error`.
- An operation that raises after changing the store returns the changed store together with the error.

Modules, one per component:
- `Wrappers`: Option and Result.
- `Bytes`: bytes, big-endian integers, concatenation, write-at-offset.
- `Text`: the Python string operations the Range parsers use.
- `Errors`: the exceptions.
- `FileUtils`: app/utils/file_utils.py.
- `Intervals`: sorting and merging of ranges and the progress figures.
- `Assembly`: the seek-then-write loop shared by the assembler and the reaper.
- `FileService`: app/services/file_service.py.
- `FilesRouter`: app/api/routers/files.py.
- `Cleanup`: app/services/cleanup_service.py.
- `LegacyUtils`: app/utils.py.

Behaviours of the code that the model reproduces rather than repairs:
- `get_file_status` never reports `pending`. It creates a record for an unknown name and calls that `partial`, although the deletion test expects `pending`.
- An assembly that meets a missing staged chunk raises after the output file was opened. A truncated artifact is left behind, and the status query then calls it complete.
- The reaper rewrites the record as `<name>.partial.meta` with its old `last_update`. The next sweep therefore reclaims it again.
- The upload endpoint never rejects `end < start`, and nothing compares the payload length with `end - start + 1`.
- The download endpoint reads `bytes=-N` as start 0, not as the suffix range of section 2.1 of RFC 7233.
- The legacy ranged response accepts an inverted range. With `start >= end + 4`, the iterator's first read is given a count below -1 and raises ValueError.

The completion test `bytes_received == total_bytes` turned out to be equivalent to "the merged ranges are exactly `[(0, total_bytes - 1)]`" even with inverted ranges (`Intervals.CompletionIffSingleCover`). What inverted ranges break is the other reading, "every byte has been received". An upload can hold every byte and still not complete (`FileService.InvertedFirstChunkStallsUpload`).

## Model

| member | source | states |
|---|---|---|
| `Errors.StatusCode` | app/services/file_service.py:300-304 | A stand-alone table from each error to the status it is answered with, always 4xx or 5xx. Two kinds of error give 500. The assembly gap is a deliberate `HTTPException` with status 500. The uncaught Python exceptions (`Errors.Uncaught`: OverflowError from `to_bytes`, ValueError from the legacy Range split or from a legacy `read` with a count below -1, OSError from `os.rmdir`) reach the framework's generic 500. Every other error is a deliberate `HTTPException` below 500. |
| `FileUtils.ChecksumDetectsSingleByteChange` | app/utils/file_utils.py:36-40 | Changing any single payload byte to a different value changes `sum(data) % 256`. `FileUtils.CalculateChecksum` has no contract of its own. This lemma and the header round trips carry what it promises. |
| `FileUtils.CreateChunkHeader` | app/utils/file_utils.py:42-51 | The header is exactly 17 bytes with byte 16 equal to `checksum % 256`. It is created iff both fields fit in 8 unsigned bytes; otherwise it fails with an overflow. |
| `FileUtils.ValidateFileChunkHeader` | app/utils/file_utils.py:6-34 | Fewer than 17 bytes are rejected as an invalid size, and only those. An accepted header has `start <= end < 2^64`, and its checksum is byte 16. |
| `FileUtils.ValidateCreatedHeader` | app/utils/file_utils.py:24-26 | Round trip: for `s <= e < 2^64`, validating `create_chunk_header(s, e, c) + payload` gives back `(s, e, c mod 256)`. |
| `FileUtils.CreateValidatedHeader` | app/utils/file_utils.py:47-49 | Inverse round trip: every accepted header is the encoding of the fields it decodes to. |
| `FileUtils.InvertedHeaderRejected` | app/utils/file_utils.py:28-32 | A header with `end < start` is created without complaint and refused by the validator as an invalid byte range. |
| `FilesRouter.ParseChunkBody` | app/api/routers/files.py:28-52 | A body shorter than 17 bytes is refused, and only then. A checksum byte different from the payload sum mod 256 is refused, and only then. On success the payload is the rest of the body, and the header re-encodes the decoded start and end. |
| `FilesRouter.UploadFileChunk` | app/api/routers/files.py:54-62 | A refused body never reaches `save_chunk` and leaves the store unchanged. Through `Errors.StatusCode`, a failure is a 400 iff the body was refused. Otherwise it is the 500 of an assembly gap. |
| `FilesRouter.EncodedChunkAccepted` | app/api/routers/files.py:37-43 | Round trip: `create_chunk_header(s, e, calculate_checksum(p)) + p` is accepted and decodes to `(s, e, p)`. |
| `FilesRouter.CorruptedPayloadRejected` | app/api/routers/files.py:46-52 | Changing one payload byte after encoding gets the chunk refused with a checksum failure. |
| `FilesRouter.WrongChecksumRejected` | tests/test_files.py:35-59 | A header whose checksum byte is not the payload sum (such as 255) is refused with a checksum failure. |
| `FilesRouter.InvertedRangeAccepted` | app/api/routers/files.py:40-43 | The router accepts a chunk with `end < start` that `validate_file_chunk_header` refuses. |
| `FilesRouter.SingleChunkUploadCompletes` | tests/test_files.py:6-33 | A whole file sent as one chunk under a new name completes at once. `bytes_received` equals its length, and the artifact equals the payload. |
| `FilesRouter.ParseChunkBodyChecked` | app/utils/file_utils.py:28-32 | The corrected decoding accepts exactly the bodies the router accepts whose range is not inverted, with the same result. |
| `FilesRouter.UploadFileChunkChecked` | app/api/routers/files.py:54-62 | With the range check in place, a refused body still leaves the store unchanged. |
| `FilesRouter.CheckedUploadCompletesIffAllReceived` | app/services/file_service.py:49-62 | Under the range check, records never hold inverted ranges and the store stays consistent. An accepted chunk completes the upload exactly when every byte of `[0, total_bytes)` has been received. |
| `FilesRouter.CheckSatisfiable` | app/api/routers/files.py:99-104 | A range is satisfiable iff it starts inside the file and is not inverted; otherwise it fails with 416. |
| `FilesRouter.ResolveDownloadRange` | app/api/routers/files.py:85-109 | With no Range header the range is `[0, size - 1]`. With one, a resolved range satisfies `start <= end < size`. Failures are only 416 or the bad-format error. The parts are what remains after removing `bytes=`, split at `-`. The 400 bad-format error occurs iff that text contains `-` and one of its first two parts is non-empty and not an integer. Without a `-`, 416 occurs iff the file is empty. With parseable parts, 416 occurs iff the start (0 if empty) is at or past `size`, or past `min(end, size - 1)` (the end being `size - 1` if empty). |
| `FilesRouter.NonNumericStartIsBadRequest` | app/api/routers/files.py:94-95 | `bytes=x-5` is a 400 bad-format error, because `int("x")` raises ValueError. |
| `FilesRouter.ExplicitRangeResolves` | app/api/routers/files.py:89-104 | `bytes=a-b` resolves to `[a, min(b, size - 1)]` when `a < size` and `a <= b`, and is unsatisfiable otherwise. |
| `FilesRouter.PartialDownloadOfTwentySixBytes` | tests/test_files.py:135-142 | `bytes=5-15` on 26 bytes selects exactly bytes 5 through 15, eleven bytes. |
| `FilesRouter.LeadingDashStartsAtZero` | app/api/routers/files.py:93-97 | `bytes=-n` is read as `[0, min(n, size - 1)]`, not as a suffix range. |
| `FilesRouter.OpenRangeRunsToEnd` | app/api/routers/files.py:96-97 | `bytes=a-` runs to the last byte of the file. |
| `FilesRouter.DownloadFile` | app/api/routers/files.py:64-141 | A name without an artifact is refused as incomplete (status 404 through `Errors.StatusCode`). A range refused as unsatisfiable gives 416; any other refused range gives 400. Otherwise the body is exactly the bytes of the resolved range, and Content-Length equals the body length. A Content-Range `bytes s-e/size` (section 4.2 of RFC 7233) and status 206 appear iff a Range header was sent, and without one the body is the whole file. The store is what the status query left. |
| `Intervals.SortedRanges` | app/services/file_service.py:255-257 | The sorted listing is strictly increasing in tuple order and holds exactly the chunk keys. |
| `Intervals.SortIsOrderIndependent` | app/services/file_service.py:256-257 | However the chunk map enumerates its keys, the sorted listing is the same. |
| `Intervals.ReceivedRangesShape` | app/services/file_service.py:259-267 | The merged ranges are in order, any two are at least one uncovered byte apart, and together they cover exactly the union of the chunk ranges. There are no more of them than chunks, and at least one if there is any chunk. |
| `Intervals.NextExpectedIsLeastMissing` | app/services/file_service.py:269-283 | `next_expected_byte` is the least byte no chunk covers, and 0 when there are no chunks. The `total_bytes` argument plays no part. |
| `Intervals.BytesReceivedIsUnionSize` | app/services/file_service.py:54-55 | With no inverted range, `bytes_received` is the number of distinct bytes the chunks cover. |
| `Intervals.CompletionIffSingleCover` | app/services/file_service.py:59 | When every chunk ends below `total_bytes`, `bytes_received == total_bytes` iff the merge is the single range `[0, total_bytes - 1]`. |
| `Intervals.CompletionIffAllBytesReceived` | app/services/file_service.py:59-62 | With no inverted range, the completion test holds iff every byte of `[0, total_bytes)` is covered. |
| `Intervals.InvertedRangeStallsCompletion` | app/services/file_service.py:55 | A snapshot of a record that holds exactly the chunks `[0, 9]` and `[11, 5]`. The chunks cover every byte of `[0, 10)`, yet `bytes_received` is 5, short of the 10 bytes covered. |
| `Intervals.InvertedRangeCountsNegative` | app/services/file_service.py:55 | A lone chunk `[11, 5]` merges to itself and counts as `5 - 11 + 1 = -5` bytes received. |
| `Intervals.BridgedInvertedRangeMerges` | app/services/file_service.py:259-267 | Adding `[10, 10]` to `[0, 9]` and `[11, 5]` merges all three into `[0, 10]`, so `bytes_received` becomes 11. |
| `Intervals.Merge` | app/services/file_service.py:259-267 | The merge returns no more ranges than it is given, and none exactly when it is given none. Its content is stated by `Intervals.ReceivedRangesShape`. |
| `Intervals.CalculateReceivedRanges` | app/services/file_service.py:248-267 | There are no more merged ranges than chunk keys, and none exactly when there are no chunks. |
| `Intervals.NextExpectedFrom` | app/services/file_service.py:277-283 | The loop never returns less than the `last_end` it starts from. |
| `Intervals.NextExpected` | app/services/file_service.py:269-283 | When the first merged range starts at 0, the result lies past its end. `Intervals.NextExpectedIsLeastMissing` states the full property. |
| `Intervals.SeparatedSumIffSingleCover` | app/services/file_service.py:55-59 | For separated ranges that all end before `total`, the summed lengths equal `total` iff there is exactly one range, `[0, total - 1]`. |
| `Intervals.SingleRangeCoversPrefix` | app/services/file_service.py:55-59 | The one range `[0, n - 1]` covers exactly the bytes of `[0, n)`. |
| `Assembly.AssembleFrom` | app/services/file_service.py:297-309 | The assembler loop succeeds iff every listed range has a staged payload. A failure names the first missing range, and every range before it was staged. |
| `Assembly.AssembleAgreesWithReclaim` | app/services/cleanup_service.py:84-89 | With every payload staged, the assembler and the reaper's skipping loop write the same bytes. |
| `Assembly.ReclaimFrom` | app/services/cleanup_service.py:84-89 | The reaper's loop never shortens the file it starts from. `Cleanup.ReclaimNothingStaged` covers the case where no listed range has a staged payload. |
| `Assembly.TruncatedIsReclaimedPrefix` | app/services/file_service.py:300-304 | At the first missing payload the assembler stops. The file it leaves holds exactly what the ranges before that payload write. |
| `Assembly.AssembleReproducesOriginal` | app/services/file_service.py:290-309 | Round trip: staged slices `data[s..e]` that cover every byte of `data`, written in ascending order from an empty file, reproduce `data` exactly, whatever the arrival order. |
| `FileService.GetFileMetadata` | app/services/file_service.py:215-236 | An existing record is returned unchanged. A missing one is created fresh, with no chunks, timestamps `now`, and is stored at once. |
| `FileService.NewTotal` | app/services/file_service.py:49-51 | The new `total_bytes` is the larger of the old total and `end + 1`: never below either, equal to one of them. |
| `FileService.AdmitKeepsTotal` | app/services/file_service.py:36-51 | Admitting a chunk keeps `total_bytes` equal to the largest recorded end plus one (absent exactly when no chunk is recorded), and never lowers it. |
| `FileService.Receive` | app/services/file_service.py:33-51 | The payload is staged under `(name, [start, end])` and no artifact changes. A record for the name exists afterwards. The record's chunk keys are the old ones (none for a new name) plus `[start, end]`, with size `len(data)` and time `now`. The total is the old one raised to `end + 1` where needed. |
| `FileService.Conclude` | app/services/file_service.py:54-66 | The result is partial iff `bytes_received` misses `total_bytes`. Then the record is saved with `last_update = now`, and staging and artifacts are untouched. Complete means the record is gone and the artifact exists. A failure is an assembly gap that leaves records and staging alone but leaves an artifact. Every reported figure is derived from the record's chunks. |
| `FileService.SaveChunk` | app/services/file_service.py:28-75 | Only an assembly gap makes it fail, and an artifact then exists. A success is never pending, and reports a `total_bytes` of at least `end + 1`. A partial result leaves a record that lists `[start, end]`, with the payload staged under it. A complete result leaves no record and an artifact. |
| `FileService.ReceiveKeepsConsistent` | app/services/file_service.py:33-51 | Recording and staging a chunk keeps every record's total invariant and every listed chunk staged. |
| `FileService.ConcludeKeepsConsistent` | app/services/file_service.py:58-66 | With every listed chunk staged, the complete-or-partial decision succeeds and keeps the store invariant. |
| `FileService.DropRecordKeepsStaged` | app/services/file_service.py:311-320 | Deleting a completed record and its chunk files leaves every other record with all of its chunks staged. |
| `FileService.StoreRecordKeepsConsistent` | app/services/file_service.py:238-246 | Saving a record whose `total_bytes` is its largest end plus one and whose chunks are all staged keeps the store invariant. |
| `FileService.SaveChunkKeepsConsistent` | app/services/file_service.py:28-75 | `save_chunk` keeps the store invariant, and under it assembly never meets a missing chunk. |
| `FileService.SaveChunkKeepsRangesOrdered` | app/services/file_service.py:36-42 | Admitting only non-inverted ranges keeps every record free of inverted ones. |
| `FileService.ConcludeKeepsRangesOrdered` | app/services/file_service.py:58-66 | Whether the record is deleted after assembly, left as read, or saved, no record gains an inverted range. |
| `FileService.SaveChunkAssemblesIffSingleCover` | app/services/file_service.py:54-66 | `save_chunk` assembles (reporting complete or raising) exactly when the merge is `[0, total_bytes - 1]`, inverted ranges included. |
| `FileService.SaveChunkAssemblesIffAllReceived` | app/services/file_service.py:49-66 | With no inverted range, `save_chunk` assembles exactly when every byte of `[0, total_bytes)` has been received. |
| `FileService.ResubmissionKeepsProgress` | app/services/file_service.py:36-42 | Re-sending a recorded range overwrites its entry and leaves `bytes_received`, `total_bytes` and `next_expected_byte` as the record reported them. |
| `FileService.FailedAssemblyLeavesTruncatedArtifact` | app/services/file_service.py:294-304 | A missing staged chunk makes `save_chunk` raise with that chunk's range. No staged chunk is deleted, the record stays as read, and a truncated artifact remains that a later status query calls complete. `FileService.FailedAssemblyArtifactIsReclaimedPrefix` states what that artifact holds. |
| `FileService.ConcludeFailureIsTruncation` | app/services/file_service.py:294-304 | A failed assembly raises with the range at which the assembler stopped, and the artifact left behind is the file the assembler had written up to then. |
| `FileService.FailedAssemblyArtifactIsReclaimedPrefix` | app/services/file_service.py:294-304 | The error of a failed `save_chunk` names the range at some position `i` of the sorted listing. The artifact left behind equals what the reaper writes, from an empty file, for the listed ranges before position `i`. |
| `FileService.InvertedFirstChunkStallsUpload` | app/services/file_service.py:28-75 | Under a new name, `[11, 5]` is partial with -5 bytes received. `[0, 9]` after it covers all of `[0, 10)` with total 10, yet stays partial with 5 bytes received. A further `[10, 10]` completes the upload with 11 bytes. |
| `FileService.InvertedFirstChunk` | app/services/file_service.py:28-66 | A first chunk `[11, 5]` leaves a partial record holding only that key, with total 6 and -5 bytes received. |
| `FileService.CoveringChunkStalls` | app/services/file_service.py:49-66 | On that record, `[0, 9]` raises the total to 10 and covers every byte of `[0, 10)`, yet the upload stays partial with 5 bytes received. |
| `FileService.BridgingChunkCompletes` | app/services/file_service.py:54-62 | On that record, in a consistent store, `[10, 10]` makes the merge `[0, 10]` and completes the upload with 11 bytes. |
| `FileService.WholeFileChunkCompletes` | app/services/file_service.py:28-66 | A whole file saved as one chunk `[0, len - 1]` under a new name completes at once. `bytes_received` equals its length, and the artifact is the file. |
| `FileService.SliceUploadReproducesOriginal` | app/services/file_service.py:59-66 | Chunks that are slices of one original and cover it make the final `save_chunk` complete with the original as artifact, in any arrival order. |
| `FileService.ReceiveKeepsSlices` | app/services/file_service.py:33-47 | Receiving a slice `orig[start..end]` keeps every listed chunk of the record a staged slice of `orig`. |
| `FileService.ConcludeSlices` | app/services/file_service.py:54-66 | When the staged chunks are slices of `orig` that cover all of it, the decision assembles, reports complete with `bytes_received` equal to the length of `orig`, and the artifact is `orig`. |
| `FileService.ListingSlices` | app/services/file_service.py:290-291 | Sorting the chunk keys of a record whose chunks are staged slices of `orig` yields a list of staged slices of `orig`. |
| `FileService.GetFileStatus` | app/services/file_service.py:77-112 | The status is never pending. It is complete iff an artifact exists, and then all three figures are the artifact size. Otherwise a record exists afterwards, and staging and artifacts are untouched. |
| `FileService.GetFileStatusKeepsConsistent` | app/services/file_service.py:92-97 | A status query, even one that creates a record, keeps the store invariant. |
| `FileService.StatusOfUnknownNameIsPartial` | app/services/file_service.py:92-104 | For an unknown name the status query creates a fresh record and reports partial with nothing received. |
| `FileService.StatusAfterDeleteIsNotPending` | tests/test_files.py:196-204 | After a completed upload is deleted, its status reads partial, not the pending the test expects. |
| `FileService.PeekFileStatus` | app/services/file_service.py:105-112 | The look-up-only status is pending iff neither artifact nor record exists, with all figures zero. It is complete iff an artifact exists. |
| `FileService.PeekAgreesWithStatus` | app/services/file_service.py:81-104 | Where an artifact or a record exists, the look-up-only status equals what `get_file_status` reports. |
| `FileService.StatusAfterDeleteIsPending` | tests/test_files.py:202-204 | With the look-up-only status, a deleted upload reads pending. |
| `FileService.DeleteFile` | app/services/file_service.py:185-213 | The result is true iff an artifact or a record existed. If an artifact existed, only it is removed. Otherwise the record and its listed staged chunks are removed. Nothing under another name changes. |
| `FileService.DeleteFileKeepsConsistent` | app/services/file_service.py:185-213 | Deletion keeps the store invariant. |
| `FileService.ReadFileRange` | app/services/file_service.py:114-138 | A missing artifact is not found, and only then. Otherwise every block is non-empty and at most 1 MiB, and the blocks concatenate to exactly the bytes of `[start, end]` the file has, never one past `end`. |
| `Cleanup.ProcessStaleUpload` | app/services/cleanup_service.py:64-110 | The original record is gone, `<name>.partial` exists, and the `.partial` record keeps the chunks and the old `last_update` and is marked reclaimed. The record's chunks are unstaged. Nothing under other names changes. |
| `Cleanup.MoveRecord` | app/services/cleanup_service.py:94-105 | The record is stored under `<name>.partial` marked reclaimed with its chunks and timestamps kept, the original record and its chunk files are gone, the `.partial` artifact is the written file, and no other record or staged chunk changes. |
| `Cleanup.IsStale` | app/services/cleanup_service.py:24-41 | A stale record has a `last_update` (0 when absent) before `now`. Nothing is stale until the clock passes 86400 seconds. |
| `Cleanup.Sweep` | app/services/cleanup_service.py:34-46 | A sweep removes no artifact and stages nothing new. |
| `Cleanup.ReclaimStep` | app/services/cleanup_service.py:34-46 | A record is reclaimed iff it is present and `last_update` (0 when absent) is below `now - 86400`. Otherwise the store is unchanged. |
| `Cleanup.SweepKeepsUnlisted` | app/services/cleanup_service.py:34-46 | A sweep leaves the record of a name alone when neither the name nor its `.partial` source is listed. |
| `Cleanup.SweepLeavesNoStale` | app/services/cleanup_service.py:34-46 | After a sweep no listed name holds a stale record, provided no listed name is another's `.partial` name. |
| `Cleanup.ReclaimAgreesWithAssembler` | app/services/cleanup_service.py:77-89 | With every chunk staged, the `.partial` bytes equal what the assembler writes for the same record. |
| `Cleanup.ReclaimNothingStaged` | app/services/cleanup_service.py:85-92 | Missing chunk files are skipped. With none staged, nothing is written. |
| `Cleanup.ReclaimedRecordStaysStale` | app/services/cleanup_service.py:95-100 | The `.partial` record keeps the `last_update` that made it stale, so it is stale at every later sweep. |
| `Cleanup.SecondSweepReclaimsAgain` | app/services/cleanup_service.py:72-73 | The next sweep reclaims the reaper's own output, writing an empty `<name>.partial.partial`. |
| `Cleanup.SavedRecordIsFresh` | app/services/file_service.py:238-242 | A record `save_chunk` just saved as partial carries `last_update = now`, so it is not stale at any sweep within the 24-hour timeout. |
| `LegacyUtils.ParseRangeHeader` | app/utils.py:59-71 | No header, an empty one, no `=` or a unit other than `bytes` gives no range. The call raises iff the unit is `bytes` and the value after the first `=` has a number of `-` other than one, or a non-empty side that is not an integer. A parsed range is the start (0 if empty) and the end (`size - 1` if empty). |
| `LegacyUtils.ClientHeaderParses` | app/utils.py:65-71 | `bytes=a-b` parses to `(a, b)` whatever the file size. |
| `LegacyUtils.OpenEndDefaultsToLastByte` | app/utils.py:70 | `bytes=a-` parses to `(a, size - 1)`. |
| `LegacyUtils.OpenStartDefaultsToZero` | app/utils.py:69 | `bytes=-b` parses to `(0, b)`. |
| `LegacyUtils.FileIterator` | app/utils.py:44-57 | The iterator raises ValueError iff `start > E + 2`, because its first read then asks for fewer than -1 bytes. Otherwise the blocks are non-empty, and at most 8 KiB when no read count is negative. They concatenate to `file[start ..= min(E, size - 1)]`. When `start == E + 2` (a read of -1) or no `E` is given, they concatenate to the rest of the file. |
| `LegacyUtils.ReadAt` | app/utils.py:51-52 | `f.read(n)` raises ValueError iff `n < -1`. `n == -1` reads the rest of the file. Otherwise it reads at most `n` bytes from the position, and nothing at or past the end. |
| `LegacyUtils.ReadForward` | app/utils.py:48-57 | When no read asks for a negative count, the blocks are non-empty, at most 8 KiB each, and concatenate to `file[start ..= min(E, size - 1)]` (or the rest of the file without `E`). |
| `LegacyUtils.RangeRequestsResponse` | app/utils.py:73-91 | A raising parse is an error. No range (no header included), `start >= size` or `end >= size` gives 416. An inverted range is not refused. Among the remaining ranges, those with `start >= end + 4` end in the iterator's ValueError, and only these. Otherwise the body is what the iterator delivers up to `end + 1`. |
| `LegacyUtils.LegacyBodyOneByteLong` | app/utils.py:83-87 | For `start <= end < size - 1` the body is `file[start ..= end + 1]`, one byte more than the declared Content-Range. |
| `LegacyUtils.LegacyInvertedRangeSendsRest` | app/utils.py:80-87 | An accepted range with `start == end + 3` streams everything from `start` to the end of the file, since the first read asks for -1 bytes. |
| `LegacyUtils.LegacyInvertedRangeRaises` | app/utils.py:51-52 | For `start >= end + 4` the iterator given `end + 1` raises: its first read asks for `end - start + 2 < -1` bytes. |
| `LegacyUtils.RangeRequestsResponseExact` | app/utils.py:73-91 | Corrected response: it also refuses an inverted range, and the body is exactly `file[start ..= end]`, `end - start + 1` bytes. |
| `LegacyUtils.WriteNumberedIsRun` | app/utils.py:26-35 | The loop writes `chunk_n, chunk_n+1, ...` in order up to the first missing number. It consumes exactly those chunks and leaves the others untouched. |
| `LegacyUtils.AssembleFileConcatenatesRun` | app/utils.py:18-36 | The output is the concatenation of `chunk_1 ..= chunk_k` for the longest run from 1. Removing the directory succeeds iff it exists and holds nothing else. |

## Left out

- `list_files` (app/services/file_service.py:140-183): directory enumeration that adds nothing beyond the status rules already modelled.
- The temp-file modification-time sweep (app/services/cleanup_service.py:50-56): filesystem metadata only. Without it a staged chunk disappears only in stores built that way, or when the reaper has moved a record.
- The loop over device directories and the `while True` / `asyncio.sleep` schedule of the reaper: one sweep of one device is one call of `Cleanup.Sweep` over an explicit list of names, since glob order is unspecified.
- `processed_date` (`datetime.now()`) in the reclaimed record: it is a wall-clock value no rule reads. The `"status": "partial"` marker is the `reclaimed` flag.
- JSON (de)serialisation of records, the `filename`/`device_id` fields of a record, the per-chunk `start_byte`/`end_byte` duplicates (the key is the range itself) and path joining.
- Artifacts and `.meta` files share one directory in the service. The model keeps them in separate maps, so a user file literally named `x.meta` does not collide with the record of `x`.
- Python `int()` accepts surrounding whitespace and `_` digit separators. The model's integer parser accepts an optional `+` followed by ASCII digits only.
- Clock values: `loop.time()` is the parameter `now`.
- Concurrency between uploads, status queries and the reaper: the code has no locking to verify.
- HTTP response objects: a response is its status (via `Errors.StatusCode`), headers as fields, and the body as a list of blocks.
- RangeRequestsResponse: the ValueError of a read with a count below -1 is raised while the body streams, after the 206 status and headers have gone out. The model reports it as the error result and does not model the half-sent response.
- The legacy `save_chunk` of app/utils.py (an unconditional file write) and `get_file_path`: both are path plumbing.
- `LegacyUtils.AssembleFileConcatenatesRun`: a temporary directory is modelled as its numbered chunks only. Stray files that would also block `os.rmdir` are not represented.
- Authentication, configuration wiring, database models and schemas, and app/main.py with app/background_tasks.py: glue and foreign libraries.

## Findings

| source | as written | input that shows it | evidently intended | confidence | as-written member | corrected member |
|---|---|---|---|---|---|---|
| app/utils.py:80-87 | an inverted range passes the 416 test, and the iterator's first `read` is given `end - start + 2` bytes | `Range: bytes=10-2` on a 20-byte file: the 206 status and headers go out, then `f.read(-6)` raises ValueError | refuse `start > end` with 416 before streaming | medium; not executed | `LegacyUtils.LegacyInvertedRangeRaises` | `LegacyUtils.RangeRequestsResponseExact` |
| app/utils.py:87 | the iterator is given `end + 1`, so it streams through byte `end + 1` | `Range: bytes=0-0` on a 2-byte file: Content-Range `bytes 0-0/2`, body 2 bytes | stream exactly `[start, end]`, the range the Content-Range declares | high; not executed | `LegacyUtils.LegacyBodyOneByteLong` | `LegacyUtils.RangeRequestsResponseExact` |
| app/api/routers/files.py:40-60 | the inline header decoding never applies the `end_byte < start_byte` check of `validate_file_chunk_header` | chunks `[11, 5]` then `[0, 9]`: every byte of `[0, 10)` recorded, `bytes_received` 5, `total_bytes` 10; the upload does not complete although every byte is present, and stays partial until a further `[10, 10]` completes it | refuse inverted ranges, so completion means every byte received | medium; not executed | `FileService.InvertedFirstChunkStallsUpload` | `FilesRouter.CheckedUploadCompletesIffAllReceived` |
| app/services/file_service.py:92-112 | `_get_file_metadata` creates a record for an unknown name, so the `pending` branch is unreachable | status of a deleted upload: `partial` where tests/test_files.py:204 expects `pending` | look the record up without creating it; unknown names are pending | high; not executed | `FileService.StatusAfterDeleteIsNotPending` | `FileService.StatusAfterDeleteIsPending` |
