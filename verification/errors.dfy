/** The exceptions the upload service raises, one constructor per distinct
    `HTTPException` (or Python exception) of the source, with the HTTP status
    code it is reported under. */
module Errors {

  datatype Error =
    | ChunkTooSmall             // router: body shorter than the 17-byte header
    | ChecksumFailed            // router: header checksum differs from sum(payload) mod 256
    | InvalidHeaderSize         // validate_file_chunk_header: fewer than 17 bytes
    | InvalidByteRange          // validate_file_chunk_header: end_byte < start_byte
    | ValueOverflow             // int.to_bytes: value does not fit in 8 unsigned bytes
    | ChunkMissingDuringAssembly(start: nat, end: nat)
    | FileNotFound              // read_file_range on a missing artifact; delete of nothing
    | FileNotComplete           // download of a pending or partial upload
    | RangeNotSatisfiable       // 416
    | InvalidRangeFormat        // router: int() raised ValueError on a Range part
    | MalformedRangeValue       // legacy parse_range_header: not exactly one '-' or int() failed
    | DirectoryNotRemoved       // legacy assemble_file: os.rmdir on a missing or non-empty directory
    | NegativeReadLength        // legacy file_iterator: f.read(n) with n < -1 raises ValueError

  /** The errors that are plain Python exceptions (OverflowError,
      ValueError, OSError) rather than an `HTTPException`: nothing catches
      them, so the framework answers with its generic server error. */
  predicate Uncaught(e: Error)
  {
    e.ValueOverflow? || e.MalformedRangeValue? || e.DirectoryNotRemoved? || e.NegativeReadLength?
  }

  /** The HTTP status an error is reported with. */
  function StatusCode(e: Error): (code: nat)
    ensures 400 <= code < 600
    ensures Uncaught(e) ==> code == 500
    ensures !Uncaught(e) ==> (code == 500 <==> e.ChunkMissingDuringAssembly?)
    ensures !Uncaught(e) && !e.ChunkMissingDuringAssembly? ==> code < 500
  {
    match e
    case ChunkTooSmall => 400
    case ChecksumFailed => 400
    case InvalidHeaderSize => 400
    case InvalidByteRange => 400
    case ValueOverflow => 500
    case ChunkMissingDuringAssembly(_, _) => 500
    case FileNotFound => 404
    case FileNotComplete => 404
    case RangeNotSatisfiable => 416
    case InvalidRangeFormat => 400
    case MalformedRangeValue => 500
    case DirectoryNotRemoved => 500
    case NegativeReadLength => 500
  }
}
