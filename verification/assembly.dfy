/** The seek-then-write loop shared by `_assemble_complete_file`
    (app/services/file_service.py) and `process_stale_upload`
    (app/services/cleanup_service.py): staged payloads are written, in
    ascending range order, each at the offset its range starts at, into a
    file opened empty. The assembler gives up at the first missing payload;
    the reaper skips it. */
module Assembly {
  import opened Wrappers
  import opened Bytes
  import opened Intervals

  /** Staged chunk payloads, keyed by filename and declared range (the
      staging file `<filename>.<start>-<end>`). */
  type Staging = map<(string, ByteRange), seq<byte>>

  /** The assembler stopped at a range with no staged payload; `written` is
      what the output file holds at that moment. */
  datatype Truncated = Truncated(missing: ByteRange, written: seq<byte>)

  predicate AllStaged(name: string, ranges: seq<ByteRange>, staging: Staging)
  {
    forall i :: 0 <= i < |ranges| ==> (name, ranges[i]) in staging
  }

  /** The assembler's loop from the current file contents on. It fails
      exactly when some range has no staged payload, and then reports the
      first such range. */
  function AssembleFrom(file: seq<byte>, name: string, ranges: seq<ByteRange>, staging: Staging)
    : (r: Result<seq<byte>, Truncated>)
    ensures r.Success? <==> AllStaged(name, ranges, staging)
    ensures r.Failure? ==> exists i :: 0 <= i < |ranges| && ranges[i] == r.error.missing
                            && (name, ranges[i]) !in staging && AllStaged(name, ranges[..i], staging)
    decreases |ranges|
  {
    if |ranges| == 0 then Success(file)
    else if (name, ranges[0]) !in staging then Failure(Truncated(ranges[0], file))
    else
      var r := AssembleFrom(WriteAt(file, ranges[0].start, staging[(name, ranges[0])]), name, ranges[1..], staging);
      assert AllStaged(name, ranges, staging) <==> AllStaged(name, ranges[1..], staging);
      if r.Failure? then
        var i :| 0 <= i < |ranges[1..]| && ranges[1..][i] == r.error.missing
                 && (name, ranges[1..][i]) !in staging && AllStaged(name, ranges[1..][..i], staging);
        assert ranges[..i + 1] == [ranges[0]] + ranges[1..][..i];
        r
      else r
  }

  /** The reaper's loop from the current file contents on: ranges without a
      staged payload are skipped. */
  function ReclaimFrom(file: seq<byte>, name: string, ranges: seq<ByteRange>, staging: Staging): (r: seq<byte>)
    ensures |r| >= |file|
    decreases |ranges|
  {
    if |ranges| == 0 then file
    else if (name, ranges[0]) !in staging then ReclaimFrom(file, name, ranges[1..], staging)
    else ReclaimFrom(WriteAt(file, ranges[0].start, staging[(name, ranges[0])]), name, ranges[1..], staging)
  }

  /** With every payload staged, the assembler and the reaper write the same
      bytes. */
  lemma {:induction false} AssembleAgreesWithReclaim(file: seq<byte>, name: string, ranges: seq<ByteRange>, staging: Staging)
    requires AllStaged(name, ranges, staging)
    ensures AssembleFrom(file, name, ranges, staging) == Success(ReclaimFrom(file, name, ranges, staging))
    decreases |ranges|
  {
    if |ranges| > 0 {
      AssembleAgreesWithReclaim(WriteAt(file, ranges[0].start, staging[(name, ranges[0])]), name, ranges[1..], staging);
    }
  }

  /** Before the first missing payload the assembler has written exactly
      what the reaper writes for the ranges up to it. */
  lemma {:induction false} TruncatedIsReclaimedPrefix(file: seq<byte>, name: string, ranges: seq<ByteRange>, staging: Staging, i: nat)
    requires i < |ranges| && (name, ranges[i]) !in staging && AllStaged(name, ranges[..i], staging)
    ensures AssembleFrom(file, name, ranges, staging)
            == Failure(Truncated(ranges[i], ReclaimFrom(file, name, ranges[..i], staging)))
    decreases |ranges|
  {
    if i > 0 {
      assert ranges[1..][..i - 1] == ranges[..i][1..];
      TruncatedIsReclaimedPrefix(WriteAt(file, ranges[0].start, staging[(name, ranges[0])]), name, ranges[1..], staging, i - 1);
    }
  }

  // ------------------------------------------------------------ round trip

  /** Every range is the staged slice `data[start .. end]` of one original. */
  predicate SlicesOf(data: seq<byte>, name: string, ranges: seq<ByteRange>, staging: Staging)
  {
    forall i :: 0 <= i < |ranges| ==>
      ranges[i].start <= ranges[i].end < |data|
      && (name, ranges[i]) in staging
      && staging[(name, ranges[i])] == data[ranges[i].start..ranges[i].end + 1]
  }

  /** Some range declares byte `x`. */
  predicate Declared(ranges: seq<ByteRange>, x: nat)
  {
    exists i :: 0 <= i < |ranges| && Covers(ranges[i], x)
  }

  /** Every byte in `[m, n)` is declared by some range. */
  predicate CoversFrom(ranges: seq<ByteRange>, m: nat, n: nat)
  {
    forall x: nat :: m <= x < n ==> Declared(ranges, x)
  }

  /** Writing a slice that starts inside a prefix of the original extends the
      prefix. */
  lemma WriteSliceOntoPrefix(data: seq<byte>, m: nat, r: ByteRange)
    requires m <= |data| && r.start <= m && r.start <= r.end < |data|
    ensures WriteAt(data[..m], r.start, data[r.start..r.end + 1]) == data[..Max(m, r.end + 1)]
  {
    var w := WriteAt(data[..m], r.start, data[r.start..r.end + 1]);
    assert |w| == Max(m, r.end + 1);
    forall i | 0 <= i < |w|
      ensures w[i] == data[i]
    {
    }
  }

  /** The first range starts no later than the first undeclared-so-far
      byte, and what it leaves undeclared the remaining ranges declare. */
  lemma CoverageStep(data: seq<byte>, m: nat, name: string, ranges: seq<ByteRange>, staging: Staging)
    requires m <= |data| && |ranges| > 0
    requires StartsSorted(ranges)
    requires SlicesOf(data, name, ranges, staging)
    requires CoversFrom(ranges, m, |data|)
    ensures m < |data| ==> ranges[0].start <= m
    ensures CoversFrom(ranges[1..], Max(m, ranges[0].end + 1), |data|)
    ensures StartsSorted(ranges[1..]) && SlicesOf(data, name, ranges[1..], staging)
  {
    if m < |data| {
      assert Declared(ranges, m);
    }
    forall x: nat | Max(m, ranges[0].end + 1) <= x < |data|
      ensures Declared(ranges[1..], x)
    {
      assert Declared(ranges, x);
      var i :| 0 <= i < |ranges| && Covers(ranges[i], x);
      assert ranges[1..][i - 1] == ranges[i];
    }
  }

  lemma {:induction false} ReclaimSlicesFrom(data: seq<byte>, m: nat, name: string, ranges: seq<ByteRange>, staging: Staging)
    requires m <= |data|
    requires StartsSorted(ranges)
    requires SlicesOf(data, name, ranges, staging)
    requires CoversFrom(ranges, m, |data|)
    ensures ReclaimFrom(data[..m], name, ranges, staging) == data
    decreases |ranges|
  {
    if |ranges| == 0 {
      assert !Declared(ranges, m);
      assert data[..m] == data;
    } else {
      var r := ranges[0];
      CoverageStep(data, m, name, ranges, staging);
      WriteSliceOntoPrefix(data, m, r);
      ReclaimSlicesFrom(data, Max(m, r.end + 1), name, ranges[1..], staging);
    }
  }

  /** Round trip: when the ranges, taken in ascending start order, are slices
      of one original and together cover all of it, assembling them from an
      empty file reproduces the original exactly, whatever order the chunks
      were received in. */
  lemma AssembleReproducesOriginal(data: seq<byte>, name: string, ranges: seq<ByteRange>, staging: Staging)
    requires StartsSorted(ranges)
    requires SlicesOf(data, name, ranges, staging)
    requires CoversFrom(ranges, 0, |data|)
    ensures AssembleFrom([], name, ranges, staging) == Success(data)
  {
    assert data[..0] == [];
    ReclaimSlicesFrom(data, 0, name, ranges, staging);
    AssembleAgreesWithReclaim([], name, ranges, staging);
  }
}
