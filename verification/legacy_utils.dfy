/** The older helpers of app/utils.py: Range-header parsing, the 8 KiB file
    iterator, the ranged streaming response and the assembly of numbered
    chunk files. */
module LegacyUtils {
  import opened Wrappers
  import opened Bytes
  import opened Text
  import opened Errors

  /** `CHUNK_SIZE` (8 KiB). */
  const IteratorBlockSize: nat := 8192

  /** The `(start, end)` pair `parse_range_header` returns when it returns
      numbers. */
  datatype LegacyRange = LegacyRange(start: nat, end: int)

  /** `int(part)` for a non-empty part; ValueError otherwise. */
  function PartValue(part: string): (r: Result<nat, Error>)
    ensures r.Success? <==> ParseInt(part).Some?
    ensures r.Success? ==> r.value == ParseInt(part).value
    ensures r.Failure? ==> r.error == MalformedRangeValue
  {
    match ParseInt(part)
    case None => Failure(MalformedRangeValue)
    case Some(v) => Success(v)
  }

  /** A header `parse_range_header` reads as a byte range: present, with
      a `=` and the unit `bytes` before the first one. */
  predicate BytesUnit(header: Option<string>)
  {
    header.Some? && '=' in header.value && BeforeFirst(header.value, '=') == "bytes"
  }

  /** A range value the split or `int()` refuses: not exactly one `-`, or a
      non-empty side that is not an integer. */
  predicate MalformedValue(value: string)
  {
    Count(value, '-') != 1 || Unparsable(BeforeFirst(value, '-')) || Unparsable(AfterFirst(value, '-'))
  }

  /** `parse_range_header(header, size)`: no header, no `=` or a unit other
      than `bytes` gives `(None, None)`; a value that does not split into
      exactly two parts at `-`, or a part `int()` refuses, raises. */
  function ParseRangeHeader(header: Option<string>, size: nat): (r: Result<Option<LegacyRange>, Error>)
    ensures header.None? || header.value == "" || '=' !in header.value ==> r == Success(None)
    ensures r.Failure? ==> r.error == MalformedRangeValue
    ensures header.Some? && '=' in header.value && BeforeFirst(header.value, '=') != "bytes" ==> r == Success(None)
    ensures r.Success? && r.value.Some? ==> BytesUnit(header) && Count(AfterFirst(header.value, '='), '-') == 1
    ensures r.Failure? <==> BytesUnit(header) && MalformedValue(AfterFirst(header.value, '='))
    ensures r.Success? && r.value.Some? ==>
              var value := AfterFirst(header.value, '=');
              !MalformedValue(value)
              && r.value.value.start == PartOr(BeforeFirst(value, '-'), 0)
              && r.value.value.end == PartOr(AfterFirst(value, '-'), size - 1)
  {
    if header.None? || header.value == "" || '=' !in header.value then Success(None)
    else
      var unit := BeforeFirst(header.value, '=');
      var value := AfterFirst(header.value, '=');
      if unit != "bytes" then Success(None)
      else if Count(value, '-') != 1 then Failure(MalformedRangeValue)
      else
        var startText := BeforeFirst(value, '-');
        var endText := AfterFirst(value, '-');
        var start :- if startText == "" then Success(0) else PartValue(startText);
        var end :- if endText == "" then Success(size - 1) else PartValue(endText);
        Success(Some(LegacyRange(start, end)))
  }

  /** A digit string, a `-` and a digit string: one `-`, split back into the
      two parts. */
  lemma ValueSplits(x: string, y: string)
    requires AllDigits(x) && AllDigits(y)
    ensures var v := x + ['-'] + y;
      BeforeFirst(v, '-') == x && AfterFirst(v, '-') == y && Count(v, '-') == 1
  {
    DigitsHaveNo(x, '-');
    DigitsHaveNo(y, '-');
    SplitAtFirst(x, '-', y);
    CountAppend(x + ['-'], y, '-');
    CountAppend(x, ['-'], '-');
    CountZero(x, '-');
    CountZero(y, '-');
  }

  /** `bytes=a-b` as a client writes it parses to `(a, b)`, whatever the
      file size. */
  lemma ClientHeaderParses(a: nat, b: nat, size: nat)
    ensures ParseRangeHeader(Some("bytes=" + NatToDecimal(a) + "-" + NatToDecimal(b)), size)
            == Success(Some(LegacyRange(a, b)))
  {
    var x := NatToDecimal(a);
    var y := NatToDecimal(b);
    var v := x + ['-'] + y;
    var h := "bytes=" + x + "-" + y;
    assert h == "bytes" + ['='] + v;
    SplitAtFirst("bytes", '=', v);
    ValueSplits(x, y);
    ParseDecimal(a);
    ParseDecimal(b);
    ParsesTo(h, v, x, y, a, b, size);
  }

  /** The last steps of the parse once the header is split into its parts. */
  lemma ParsesTo(h: string, v: string, x: string, y: string, a: nat, b: nat, size: nat)
    requires '=' in h && BeforeFirst(h, '=') == "bytes" && AfterFirst(h, '=') == v
    requires BeforeFirst(v, '-') == x && AfterFirst(v, '-') == y && Count(v, '-') == 1
    requires x != "" && ParseInt(x) == Some(a) && y != "" && ParseInt(y) == Some(b)
    ensures ParseRangeHeader(Some(h), size) == Success(Some(LegacyRange(a, b)))
  {
    ParsesParts(h, v, x, y, size);
  }

  /** A `bytes` header whose value splits at its one `-` into parts `int()`
      accepts (or empty) parses to those parts, with the defaults. */
  lemma ParsesParts(h: string, v: string, x: string, y: string, size: nat)
    requires '=' in h && BeforeFirst(h, '=') == "bytes" && AfterFirst(h, '=') == v
    requires BeforeFirst(v, '-') == x && AfterFirst(v, '-') == y && Count(v, '-') == 1
    requires !Unparsable(x) && !Unparsable(y)
    ensures ParseRangeHeader(Some(h), size) == Success(Some(LegacyRange(PartOr(x, 0), PartOr(y, size - 1))))
  {
  }

  /** `bytes=a-` runs to the last byte. */
  lemma OpenEndDefaultsToLastByte(a: nat, size: nat)
    ensures ParseRangeHeader(Some("bytes=" + NatToDecimal(a) + "-"), size) == Success(Some(LegacyRange(a, size - 1)))
  {
    var x := NatToDecimal(a);
    var v := x + ['-'] + "";
    var h := "bytes=" + x + "-";
    assert h == "bytes" + ['='] + v;
    SplitAtFirst("bytes", '=', v);
    ValueSplits(x, "");
    ParseDecimal(a);
    ParsesParts(h, v, x, "", size);
  }

  /** `bytes=-b` starts at byte 0 and ends at `b`. */
  lemma OpenStartDefaultsToZero(b: nat, size: nat)
    ensures ParseRangeHeader(Some("bytes=-" + NatToDecimal(b)), size) == Success(Some(LegacyRange(0, b)))
  {
    var y := NatToDecimal(b);
    var v := "" + ['-'] + y;
    var h := "bytes=-" + y;
    assert h == "bytes" + ['='] + v;
    SplitAtFirst("bytes", '=', v);
    ValueSplits("", y);
    ParseDecimal(b);
    ParsesParts(h, v, "", y, size);
  }

  // ------------------------------------------------------------ iterator

  /** `f.read(n)` at position `pos` on a file opened `"rb"`: `n == -1` reads
      to the end of the file, any other negative `n` raises ValueError, and
      nothing is read at or past the end. */
  function ReadAt(file: seq<byte>, pos: nat, n: int): (r: Result<seq<byte>, Error>)
    ensures r.Failure? <==> n < -1
    ensures r.Failure? ==> r.error == NegativeReadLength
    ensures r.Success? ==> (|r.value| == 0 <==> pos >= |file| || n == 0)
    ensures r.Success? && |r.value| > 0 ==> pos + |r.value| <= |file| && r.value == file[pos..pos + |r.value|]
    ensures r.Success? && n >= 0 ==> |r.value| <= n
    ensures n == -1 && pos < |file| ==> r == Success(file[pos..])
  {
    if n < -1 then Failure(NegativeReadLength)
    else if pos >= |file| then Success([])
    else if n == -1 then Success(file[pos..])
    else Success(file[pos..Min(pos + n, |file|)])
  }

  /** Whether the first read of `file_iterator(start, E)` asks for a count
      below -1 (`E - start + 1 < -1`), so that the iterator raises. */
  predicate IteratorRaises(start: nat, limit: Option<int>)
  {
    limit.Some? && start > limit.value + 2
  }

  /** What `file_iterator(start, E)` delivers when it does not raise: from
      `start` up to and including byte `E` when `start <= E + 1`; when
      `start == E + 2` the first read asks for -1 and so runs to the end of
      the file; without `E`, the rest of the file. */
  function IteratorBytes(file: seq<byte>, start: nat, limit: Option<int>): seq<byte>
    requires !IteratorRaises(start, limit)
  {
    if start >= |file| then []
    else if limit.None? || start > limit.value + 1 then file[start..]
    else file[start..Min(limit.value + 1, |file|)]
  }

  /** Whether every read of the iterator asks for a count of at least 0. */
  predicate ForwardReads(start: nat, limit: Option<int>)
  {
    limit.None? || start <= limit.value + 1
  }

  /** Where the iterator may stop: where the file ends, or just past byte
      `E`; the bytes read from `start` up to there are what it delivers. */
  lemma IteratorStop(file: seq<byte>, start: nat, limit: Option<int>, pos: nat)
    requires start <= pos
    requires ForwardReads(start, limit) && limit.Some? ==> pos <= limit.value + 1
    requires pos >= |file| || (limit.Some? && pos > limit.value)
    requires !ForwardReads(start, limit) ==> start >= |file| || pos == |file|
    requires !IteratorRaises(start, limit)
    ensures Clip(file, start, pos) == IteratorBytes(file, start, limit)
  {
  }

  /** The reading loop of `file_iterator` when every read asks for a count
      of at least 0: blocks of at most 8 KiB, never past byte `E`. */
  method ReadForward(file: seq<byte>, start: nat, limit: Option<int>) returns (blocks: seq<seq<byte>>)
    requires ForwardReads(start, limit)
    ensures Concat(blocks) == IteratorBytes(file, start, limit)
    ensures forall i :: 0 <= i < |blocks| ==> 0 < |blocks[i]| <= IteratorBlockSize
  {
    var pos := start;
    blocks := [];
    while true
      invariant start <= pos && (pos == start || pos <= |file|)
      invariant Concat(blocks) == Clip(file, start, pos)
      invariant limit.Some? ==> pos <= limit.value + 1
      invariant forall i :: 0 <= i < |blocks| ==> 0 < |blocks[i]| <= IteratorBlockSize
      decreases |file| - pos
    {
      var want := if limit.None? then IteratorBlockSize else Min(IteratorBlockSize, limit.value - pos + 1);
      var data := ReadAt(file, pos, want).value;
      if |data| == 0 {
        IteratorStop(file, start, limit, pos);
        return;
      }
      ClipStep(file, start, pos, data);
      ConcatAppend(blocks, data);
      blocks := blocks + [data];
      pos := pos + |data|;
      if limit.Some? && pos > limit.value {
        IteratorStop(file, start, limit, pos);
        return;
      }
    }
  }

  /** `file_iterator(file, start, end)`: seek to `start`, then read blocks of
      at most 8 KiB (never past byte `end` when it is given) until a read
      comes back empty or the position passes `end`. A first read count
      below -1 raises ValueError before any block is produced. */
  method FileIterator(file: seq<byte>, start: nat, limit: Option<int>) returns (r: Result<seq<seq<byte>>, Error>)
    ensures r.Failure? <==> IteratorRaises(start, limit)
    ensures r.Failure? ==> r.error == NegativeReadLength
    ensures r.Success? ==> Concat(r.value) == IteratorBytes(file, start, limit)
    ensures r.Success? ==> forall i :: 0 <= i < |r.value| ==> |r.value[i]| > 0
    ensures r.Success? && ForwardReads(start, limit) ==>
              forall i :: 0 <= i < |r.value| ==> |r.value[i]| <= IteratorBlockSize
  {
    if ForwardReads(start, limit) {
      var blocks := ReadForward(file, start, limit);
      return Success(blocks);
    }
    // The first read asks for a count of at most -1: exactly -1 returns the
    // rest of the file, and the position is then past `E`; less raises.
    var read := ReadAt(file, start, limit.value - start + 1);
    if read.Failure? {
      return Failure(read.error);
    }
    var data := read.value;
    if |data| == 0 {
      return Success([]);
    }
    ConcatAppend([], data);
    return Success([data]);
  }

  // ------------------------------------------------------------ ranged response

  /** A 206 response: the declared `Content-Range` and the streamed body. */
  datatype RangedResponse = RangedResponse(first: nat, last: int, completeLength: nat, body: seq<seq<byte>>)

  /** `range_requests_response`: a parse that raises surfaces as an error; no
      usable range (including no Range header at all), a start or an end at
      or past the end of the file is answered 416; otherwise the body is
      `file_iterator(start, end + 1)` under `Content-Range: bytes start-end/size`.
      An inverted range is not refused: with `start >= end + 4` the
      iterator's first read raises ValueError once the 206 status is out,
      which the model reports as that error. */
  method RangeRequestsResponse(file: seq<byte>, header: Option<string>) returns (r: Result<RangedResponse, Error>)
    ensures ParseRangeHeader(header, |file|).Failure? ==> r == Failure(MalformedRangeValue)
    ensures ParseRangeHeader(header, |file|).Success? ==>
              var p := ParseRangeHeader(header, |file|).value;
              (r.Failure? <==> p.None? || p.value.start >= |file| || p.value.end >= |file| || p.value.start >= p.value.end + 4)
              && (r.Failure? ==> r.error == (if p.None? || p.value.start >= |file| || p.value.end >= |file|
                                             then RangeNotSatisfiable else NegativeReadLength))
    ensures r.Success? ==> r.value.first < |file| && r.value.last < |file| && r.value.completeLength == |file|
                           && r.value.first <= r.value.last + 3
                           && Concat(r.value.body) == IteratorBytes(file, r.value.first, Some(r.value.last + 1))
  {
    var parsed := ParseRangeHeader(header, |file|);
    r := Respond(file, parsed);
  }

  /** The response to an already parsed header, as written. */
  method Respond(file: seq<byte>, parsed: Result<Option<LegacyRange>, Error>) returns (r: Result<RangedResponse, Error>)
    ensures parsed.Failure? ==> r == Failure(MalformedRangeValue)
    ensures parsed.Success? ==>
              var p := parsed.value;
              (r.Failure? <==> p.None? || p.value.start >= |file| || p.value.end >= |file| || p.value.start >= p.value.end + 4)
              && (r.Failure? ==> r.error == (if p.None? || p.value.start >= |file| || p.value.end >= |file|
                                             then RangeNotSatisfiable else NegativeReadLength))
    ensures r.Success? ==> r.value.first < |file| && r.value.last < |file| && r.value.completeLength == |file|
                           && r.value.first <= r.value.last + 3
                           && Concat(r.value.body) == IteratorBytes(file, r.value.first, Some(r.value.last + 1))
  {
    if parsed.Failure? {
      return Failure(MalformedRangeValue);
    }
    if parsed.value.None? || parsed.value.value.start >= |file| || parsed.value.value.end >= |file| {
      return Failure(RangeNotSatisfiable);
    }
    var rg := parsed.value.value;
    var body := FileIterator(file, rg.start, Some(rg.end + 1));
    if body.Failure? {
      return Failure(body.error);
    }
    return Success(RangedResponse(rg.start, rg.end, |file|, body.value));
  }

  /** Passing `end + 1` to the iterator makes the body one byte longer than
      the declared range whenever the range stops short of the last byte. */
  lemma LegacyBodyOneByteLong(file: seq<byte>, start: nat, end: nat)
    requires start <= end && end + 1 < |file|
    ensures IteratorBytes(file, start, Some(end + 1)) == file[start..end + 2]
    ensures |IteratorBytes(file, start, Some(end + 1))| == (end - start + 1) + 1
  {
  }

  /** The inverted range with `start == end + 3` is not refused: the
      iterator's first read asks for -1 and sends everything from `start`
      to the end of the file. */
  lemma LegacyInvertedRangeSendsRest(file: seq<byte>, start: nat, end: nat)
    requires start == end + 3 && start < |file|
    ensures IteratorBytes(file, start, Some(end + 1)) == file[start..]
  {
  }

  /** An inverted range with `start >= end + 4` is not refused either, but
      the iterator's first read asks for `end - start + 2 < -1` bytes, and
      that read raises ValueError. */
  lemma LegacyInvertedRangeRaises(file: seq<byte>, start: nat, end: nat)
    requires start >= end + 4
    ensures IteratorRaises(start, Some(end + 1))
    ensures ReadAt(file, start, (end + 1) - start + 1) == Failure(NegativeReadLength)
  {
  }

  /** The evidently intended response: the iterator is given `end` itself and
      an inverted range is refused. */
  method RangeRequestsResponseExact(file: seq<byte>, header: Option<string>) returns (r: Result<RangedResponse, Error>)
    ensures ParseRangeHeader(header, |file|).Failure? ==> r == Failure(MalformedRangeValue)
    ensures ParseRangeHeader(header, |file|).Success? ==>
              var p := ParseRangeHeader(header, |file|).value;
              (r.Failure? <==> p.None? || p.value.start >= |file| || p.value.end >= |file| || p.value.start > p.value.end)
    ensures r.Success? ==> r.value.first <= r.value.last < |file| && r.value.completeLength == |file|
                           && Concat(r.value.body) == file[r.value.first..r.value.last + 1]
                           && |Concat(r.value.body)| == r.value.last - r.value.first + 1
  {
    var parsed := ParseRangeHeader(header, |file|);
    r := RespondExact(file, parsed);
  }

  /** The corrected response to an already parsed header. */
  method RespondExact(file: seq<byte>, parsed: Result<Option<LegacyRange>, Error>) returns (r: Result<RangedResponse, Error>)
    ensures parsed.Failure? ==> r == Failure(MalformedRangeValue)
    ensures parsed.Success? ==>
              var p := parsed.value;
              (r.Failure? <==> p.None? || p.value.start >= |file| || p.value.end >= |file| || p.value.start > p.value.end)
    ensures r.Success? ==> r.value.first <= r.value.last < |file| && r.value.completeLength == |file|
                           && Concat(r.value.body) == file[r.value.first..r.value.last + 1]
                           && |Concat(r.value.body)| == r.value.last - r.value.first + 1
  {
    if parsed.Failure? {
      return Failure(MalformedRangeValue);
    }
    if parsed.value.None? || parsed.value.value.start >= |file| || parsed.value.value.end >= |file|
       || parsed.value.value.start > parsed.value.value.end {
      return Failure(RangeNotSatisfiable);
    }
    var rg := parsed.value.value;
    var body := ReadForward(file, rg.start, Some(rg.end));
    assert Concat(body) == file[rg.start..rg.end + 1];
    return Success(RangedResponse(rg.start, rg.end, |file|, body));
  }


  // ------------------------------------------------------------ numbered chunks

  /** What `assemble_file` leaves: the output file, the numbered chunks not
      consumed, and the directory after `os.rmdir`. */
  datatype NumberedAssembly = NumberedAssembly(output: seq<byte>, remaining: map<nat, seq<byte>>)

  /** The loop of `assemble_file` from chunk number `n` on: append chunk `n`,
      delete it, go on with `n + 1`; stop at the first missing number. */
  function WriteNumbered(chunks: map<nat, seq<byte>>, n: nat): (a: NumberedAssembly)
    decreases |chunks.Keys|
  {
    if n !in chunks then NumberedAssembly([], chunks)
    else
      assert (chunks - {n}).Keys == chunks.Keys - {n};
      var rest := WriteNumbered(chunks - {n}, n + 1);
      NumberedAssembly(chunks[n] + rest.output, rest.remaining)
  }

  /** How many consecutive chunk numbers from `n` on are present. */
  function RunLength(chunks: map<nat, seq<byte>>, n: nat): (k: nat)
    ensures forall i :: n <= i < n + k ==> i in chunks
    ensures n + k !in chunks
    decreases |chunks.Keys|
  {
    if n !in chunks then 0
    else
      assert (chunks - {n}).Keys == chunks.Keys - {n};
      var k := RunLength(chunks - {n}, n + 1);
      assert n + 1 + k !in chunks;
      assert forall i :: n <= i < n + 1 + k ==> i in chunks by {
        forall i | n < i < n + 1 + k
          ensures i in chunks
        {
          assert i in chunks - {n};
        }
      }
      1 + k
  }

  /** Chunks `n`, `n + 1`, ..., `n + k - 1` in order. */
  function Numbered(chunks: map<nat, seq<byte>>, n: nat, k: nat): seq<seq<byte>>
    requires forall i :: n <= i < n + k ==> i in chunks
    decreases k
  {
    if k == 0 then [] else [chunks[n]] + Numbered(chunks, n + 1, k - 1)
  }

  lemma {:induction false} NumberedAgree(a: map<nat, seq<byte>>, b: map<nat, seq<byte>>, n: nat, k: nat)
    requires forall i :: n <= i < n + k ==> i in a && i in b && a[i] == b[i]
    ensures Numbered(a, n, k) == Numbered(b, n, k)
    decreases k
  {
    if k > 0 {
      NumberedAgree(a, b, n + 1, k - 1);
    }
  }

  /** The loop writes chunks `n ..` up to the first gap, in order, and leaves
      exactly the others. */
  lemma {:induction false} WriteNumberedIsRun(chunks: map<nat, seq<byte>>, n: nat)
    ensures var k := RunLength(chunks, n);
      var a := WriteNumbered(chunks, n);
      a.output == Concat(Numbered(chunks, n, k))
      && (forall i :: i in a.remaining <==> i in chunks && !(n <= i < n + k))
      && (forall i :: i in a.remaining ==> a.remaining[i] == chunks[i])
    decreases |chunks.Keys|
  {
    if n in chunks {
      var smaller := chunks - {n};
      assert smaller.Keys == chunks.Keys - {n};
      WriteNumberedIsRun(smaller, n + 1);
      var k := RunLength(chunks, n);
      NumberedAgree(smaller, chunks, n + 1, k - 1);
      ConcatPrepend(chunks[n], Numbered(chunks, n + 1, k - 1));
    }
  }

  /** `assemble_file`: the output is written whether or not the temporary
      directory exists; removing the directory fails when it is missing or
      chunks are left in it (a gap in the numbering). */
  function AssembleFile(dir: Option<map<nat, seq<byte>>>): (r: (seq<byte>, Option<map<nat, seq<byte>>>, Result<(), Error>))
  {
    var a := WriteNumbered(if dir.None? then map[] else dir.value, 1);
    if dir.Some? && a.remaining == map[] then (a.output, None, Success(()))
    else (a.output, if dir.None? then None else Some(a.remaining), Failure(DirectoryNotRemoved))
  }

  /** With chunks numbered `1 ..= k` and nothing else, `assemble_file`
      concatenates them in order and removes the directory; any other
      directory contents make it fail after writing the run from 1. */
  lemma AssembleFileConcatenatesRun(dir: Option<map<nat, seq<byte>>>)
    ensures var chunks := if dir.None? then map[] else dir.value;
      var k := RunLength(chunks, 1);
      var r := AssembleFile(dir);
      r.0 == Concat(Numbered(chunks, 1, k))
      && (r.2.Success? <==> dir.Some? && forall i :: i in chunks ==> 1 <= i <= k)
      && (r.2.Success? ==> r.1.None?)
  {
    var chunks := if dir.None? then map[] else dir.value;
    WriteNumberedIsRun(chunks, 1);
    var a := WriteNumbered(chunks, 1);
    var k := RunLength(chunks, 1);
    if forall i :: i in chunks ==> 1 <= i <= k {
      assert a.remaining.Keys == {};
    } else {
      var i :| i in chunks && !(1 <= i <= k);
      assert i in a.remaining;
    }
  }
}
