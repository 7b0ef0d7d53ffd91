/** The per-device upload store of `FileService`
    (app/services/file_service.py): chunk admission, completion and
    assembly, status, deletion and ranged reads. The directory tree becomes
    three maps: the `<name>.meta` records, the staged chunk files
    `<name>.<start>-<end>` and the assembled artifacts `<name>`. The event
    loop clock is the parameter `now`. */
module FileService {
  import opened Wrappers
  import opened Bytes
  import opened Errors
  import opened Intervals
  import opened Assembly

  /** One entry of `metadata["chunks"]`; the `"start-end"` key is the range
      itself, which determines `start_byte` and `end_byte`. */
  datatype ChunkInfo = ChunkInfo(size: nat, lastUpdate: nat)

  /** A `<name>.meta` record. `reclaimed` stands for the `"status":
      "partial"` entry the reaper adds. */
  datatype Metadata = Metadata(
    chunks: map<ByteRange, ChunkInfo>,
    totalBytes: Option<nat>,
    createdAt: nat,
    lastUpdate: Option<nat>,
    reclaimed: bool)

  datatype Store = Store(
    meta: map<string, Metadata>,
    staging: Staging,
    artifacts: map<string, seq<byte>>)

  datatype UploadState = Pending | Partial | Complete

  /** The status dictionary returned by `save_chunk` and `get_file_status`. */
  datatype Progress = Progress(state: UploadState, bytesReceived: int, totalBytes: Option<nat>, nextExpected: nat)

  /** The store after an operation, with its result or the exception it
      raised; a raising operation may already have changed the store. */
  datatype Outcome<+T> = Outcome(store: Store, result: Result<T, Error>)

  /** The staging slots of the listed chunks of `name`. */
  function StagedKeys(name: string, keys: set<ByteRange>): set<(string, ByteRange)>
  {
    set k | k in keys :: (name, k)
  }

  /** A record no chunk has reached yet. */
  function FreshMetadata(now: nat): Metadata
  {
    Metadata(map[], None, now, Some(now), false)
  }

  /** `_get_file_metadata`: the stored record, or a fresh one that is saved
      on the spot. */
  function GetFileMetadata(st: Store, name: string, now: nat): (r: (Store, Metadata))
    ensures name in st.meta ==> r == (st, st.meta[name])
    ensures name !in st.meta ==> r.1 == FreshMetadata(now) && r.0 == st.(meta := st.meta[name := r.1])
  {
    if name in st.meta then (st, st.meta[name])
    else
      var md := FreshMetadata(now);
      (st.(meta := st.meta[name := md]), md)
  }

  /** `total_bytes` after admitting a chunk ending at `end`: the larger of the
      previous total and `end + 1`. */
  function NewTotal(total: Option<nat>, end: nat): (t: nat)
    ensures t >= end + 1 && (total.Some? ==> t >= total.value)
    ensures t == end + 1 || (total.Some? && t == total.value)
  {
    if total.None? || end + 1 > total.value then end + 1 else total.value
  }

  /** The progress figures derived from a record's chunk keys. */
  function Report(state: UploadState, md: Metadata): Progress
  {
    var ms := CalculateReceivedRanges(md.chunks.Keys);
    Progress(state, BytesReceived(ms), md.totalBytes, NextExpected(ms, md.totalBytes))
  }

  /** The record `save_chunk` holds after admitting `[start, end]`. */
  function Admit(md: Metadata, data: seq<byte>, start: nat, end: nat, now: nat): Metadata
  {
    md.(chunks := md.chunks[ByteRange(start, end) := ChunkInfo(|data|, now)],
        totalBytes := Some(NewTotal(md.totalBytes, end)))
  }

  /** The first half of `save_chunk`: the record is read or created, the
      chunk entered into it with the new total, and its payload staged. */
  function Receive(st: Store, name: string, data: seq<byte>, start: nat, end: nat, now: nat): (r: (Store, Metadata))
    ensures r.0.staging == st.staging[(name, ByteRange(start, end)) := data]
    ensures r.0.artifacts == st.artifacts && name in r.0.meta
    ensures r.1.chunks.Keys == (if name in st.meta then st.meta[name].chunks.Keys else {}) + {ByteRange(start, end)}
    ensures r.1.chunks[ByteRange(start, end)] == ChunkInfo(|data|, now)
    ensures r.1.totalBytes == Some(NewTotal(if name in st.meta then st.meta[name].totalBytes else None, end))
  {
    var got := GetFileMetadata(st, name, now);
    (got.0.(staging := got.0.staging[(name, ByteRange(start, end)) := data]), Admit(got.1, data, start, end, now))
  }

  /** The second half of `save_chunk`: either assemble the artifact (when the
      received byte count reaches `total_bytes`) or save the record. When
      assembly meets a missing staged chunk the truncated output stays
      behind, the record on disk is the one read at the start, and the
      exception propagates. */
  function Conclude(st: Store, name: string, md: Metadata, now: nat): (o: Outcome<Progress>)
    requires md.totalBytes.Some?
    ensures o.result.Failure? ==> (o.result.error.ChunkMissingDuringAssembly?
              && o.store.meta == st.meta && o.store.staging == st.staging && name in o.store.artifacts)
    ensures o.result.Success? ==> o.result.value.state != Pending && o.result.value == Report(o.result.value.state, md)
    ensures (o.result.Success? && o.result.value.state == Partial)
              <==> BytesReceived(CalculateReceivedRanges(md.chunks.Keys)) != md.totalBytes.value
    ensures o.result.Success? && o.result.value.state == Partial ==>
              (o.store.meta == st.meta[name := md.(lastUpdate := Some(now))]
               && o.store.staging == st.staging && o.store.artifacts == st.artifacts)
    ensures o.result.Success? && o.result.value.state == Complete ==>
              (name !in o.store.meta && name in o.store.artifacts
               && o.result.value.bytesReceived == md.totalBytes.value)
  {
    var keys := md.chunks.Keys;
    var p := Report(Complete, md);
    if p.bytesReceived == md.totalBytes.value then
      match AssembleFrom([], name, SortedRanges(keys), st.staging)
      case Success(file) =>
        Outcome(Store(st.meta - {name}, st.staging - StagedKeys(name, keys), st.artifacts[name := file]),
                Success(p))
      case Failure(t) =>
        Outcome(st.(artifacts := st.artifacts[name := t.written]),
                Failure(ChunkMissingDuringAssembly(t.missing.start, t.missing.end)))
    else
      Outcome(st.(meta := st.meta[name := md.(lastUpdate := Some(now))]),
              Success(p.(state := Partial)))
  }

  /** `save_chunk`. */
  function SaveChunk(st: Store, name: string, data: seq<byte>, start: nat, end: nat, now: nat): (o: Outcome<Progress>)
    ensures o.result.Failure? ==> o.result.error.ChunkMissingDuringAssembly? && name in o.store.artifacts
    ensures o.result.Success? ==> (o.result.value.state != Pending
              && o.result.value.totalBytes.Some? && o.result.value.totalBytes.value >= end + 1)
    ensures o.result.Success? && o.result.value.state == Partial ==>
              (name in o.store.meta && ByteRange(start, end) in o.store.meta[name].chunks
               && (name, ByteRange(start, end)) in o.store.staging
               && o.store.staging[(name, ByteRange(start, end))] == data)
    ensures o.result.Success? && o.result.value.state == Complete ==>
              (name !in o.store.meta && name in o.store.artifacts)
  {
    var received := Receive(st, name, data, start, end, now);
    Conclude(received.0, name, received.1, now)
  }

  /** `get_file_status`: an artifact is complete with its size as every
      figure; otherwise the record is read or created, and reported as
      partial. */
  function GetFileStatus(st: Store, name: string, now: nat): (r: (Store, Progress))
    ensures r.1.state != Pending
    ensures r.1.state == Complete <==> name in st.artifacts
    ensures name in st.artifacts ==> r.0 == st && var n := |st.artifacts[name]|;
              r.1.bytesReceived == n && r.1.totalBytes == Some(n) && r.1.nextExpected == n
    ensures name !in st.artifacts ==> name in r.0.meta
    ensures r.0.staging == st.staging && r.0.artifacts == st.artifacts
  {
    if name in st.artifacts then
      var n := |st.artifacts[name]|;
      (st, Progress(Complete, n, Some(n), n))
    else
      var got := GetFileMetadata(st, name, now);
      (got.0, Report(Partial, got.1))
  }

  /** `delete_file`: removes the artifact if there is one; otherwise the
      record and the staged chunks it lists; reports whether anything
      existed. */
  function DeleteFile(st: Store, name: string): (r: (Store, bool))
    ensures r.1 <==> name in st.artifacts || name in st.meta
    ensures name !in r.0.artifacts
    ensures name in st.artifacts ==> r.0.meta == st.meta && r.0.staging == st.staging
    ensures name !in st.artifacts ==> r.0.artifacts == st.artifacts && name !in r.0.meta
    ensures name !in st.artifacts && name in st.meta ==>
              forall k :: k in st.meta[name].chunks ==> (name, k) !in r.0.staging
    ensures SameElsewhere(st, r.0, name)
  {
    if name in st.artifacts then (st.(artifacts := st.artifacts - {name}), true)
    else if name in st.meta then
      (st.(meta := st.meta - {name}, staging := st.staging - StagedKeys(name, st.meta[name].chunks.Keys)), true)
    else (st, false)
  }

  /** Nothing belonging to another filename changes. */
  ghost predicate SameElsewhere(st: Store, st': Store, name: string)
  {
    (forall n :: n != name ==> (n in st'.meta <==> n in st.meta) && (n in st.meta ==> st'.meta[n] == st.meta[n]))
    && (forall n :: n != name ==> (n in st'.artifacts <==> n in st.artifacts)
                                  && (n in st.artifacts ==> st'.artifacts[n] == st.artifacts[n]))
    && (forall n, k :: n != name ==> ((n, k) in st'.staging <==> (n, k) in st.staging)
                                     && ((n, k) in st.staging ==> st'.staging[(n, k)] == st.staging[(n, k)]))
  }

  // ------------------------------------------------------------ invariants

  /** `total_bytes` is absent exactly while no chunk is recorded, and is then
      the largest recorded end plus one. */
  predicate TotalIsMaxEnd(md: Metadata)
  {
    (md.totalBytes.None? <==> md.chunks == map[])
    && (md.totalBytes.Some? ==>
          (forall k :: k in md.chunks ==> k.end < md.totalBytes.value)
          && (exists k :: k in md.chunks && k.end + 1 == md.totalBytes.value))
  }

  /** Every chunk a record lists has its payload staged. */
  predicate ChunksStaged(st: Store)
  {
    forall n, k :: n in st.meta && k in st.meta[n].chunks ==> (n, k) in st.staging
  }

  predicate Consistent(st: Store)
  {
    (forall n :: n in st.meta ==> TotalIsMaxEnd(st.meta[n])) && ChunksStaged(st)
  }

  /** Admitting a chunk keeps `total_bytes` the largest end plus one and
      never lowers it. */
  lemma AdmitKeepsTotal(md: Metadata, data: seq<byte>, start: nat, end: nat, now: nat)
    requires TotalIsMaxEnd(md)
    ensures TotalIsMaxEnd(Admit(md, data, start, end, now))
    ensures md.totalBytes.Some? ==> md.totalBytes.value <= Admit(md, data, start, end, now).totalBytes.value
  {
    var md' := Admit(md, data, start, end, now);
    var t := md'.totalBytes.value;
    if md.totalBytes.Some? && t == md.totalBytes.value {
      var k :| k in md.chunks && k.end + 1 == md.totalBytes.value;
      assert k in md'.chunks;
    } else {
      assert ByteRange(start, end) in md'.chunks;
    }
  }

  /** Receiving a chunk keeps the store consistent and stages every chunk
      the updated record lists. */
  lemma ReceiveKeepsConsistent(st: Store, name: string, data: seq<byte>, start: nat, end: nat, now: nat)
    requires Consistent(st)
    ensures var received := Receive(st, name, data, start, end, now);
      Consistent(received.0) && TotalIsMaxEnd(received.1) && received.1.totalBytes.Some?
      && forall k :: k in received.1.chunks ==> (name, k) in received.0.staging
  {
    AdmitKeepsTotal(GetFileMetadata(st, name, now).1, data, start, end, now);
  }

  /** Removing a record together with its staged chunks keeps every other
      record's chunks staged. */
  lemma DropRecordKeepsStaged(st: Store, name: string, keys: set<ByteRange>)
    requires Consistent(st)
    ensures Consistent(Store(st.meta - {name}, st.staging - StagedKeys(name, keys), st.artifacts))
  {
    var r := Store(st.meta - {name}, st.staging - StagedKeys(name, keys), st.artifacts);
    forall n, k | n in r.meta && k in r.meta[n].chunks
      ensures (n, k) in r.staging
    {
      assert n != name && (n, k) in st.staging;
      assert (n, k) !in StagedKeys(name, keys);
    }
  }

  /** Storing a record whose chunks are all staged keeps the store
      consistent. */
  lemma StoreRecordKeepsConsistent(st: Store, name: string, md: Metadata)
    requires Consistent(st) && TotalIsMaxEnd(md)
    requires forall k :: k in md.chunks ==> (name, k) in st.staging
    ensures Consistent(st.(meta := st.meta[name := md]))
  {
  }

  /** With every listed chunk staged, concluding succeeds and keeps the store
      consistent. */
  lemma ConcludeKeepsConsistent(st: Store, name: string, md: Metadata, now: nat)
    requires Consistent(st) && TotalIsMaxEnd(md) && md.totalBytes.Some?
    requires forall k :: k in md.chunks ==> (name, k) in st.staging
    ensures Consistent(Conclude(st, name, md, now).store)
    ensures Conclude(st, name, md, now).result.Success?
  {
    var keys := md.chunks.Keys;
    var rs := SortedRanges(keys);
    if Report(Complete, md).bytesReceived == md.totalBytes.value {
      forall i | 0 <= i < |rs|
        ensures (name, rs[i]) in st.staging
      {
        assert rs[i] in keys;
      }
      assert AllStaged(name, rs, st.staging);
      DropRecordKeepsStaged(st, name, keys);
    } else {
      StoreRecordKeepsConsistent(st, name, md.(lastUpdate := Some(now)));
    }
  }

  /** The store invariant survives chunk admission, and under it assembly
      never meets a missing chunk. */
  lemma SaveChunkKeepsConsistent(st: Store, name: string, data: seq<byte>, start: nat, end: nat, now: nat)
    requires Consistent(st)
    ensures Consistent(SaveChunk(st, name, data, start, end, now).store)
    ensures SaveChunk(st, name, data, start, end, now).result.Success?
  {
    ReceiveKeepsConsistent(st, name, data, start, end, now);
    var received := Receive(st, name, data, start, end, now);
    ConcludeKeepsConsistent(received.0, name, received.1, now);
  }

  lemma GetFileStatusKeepsConsistent(st: Store, name: string, now: nat)
    requires Consistent(st)
    ensures Consistent(GetFileStatus(st, name, now).0)
  {
  }

  lemma DeleteFileKeepsConsistent(st: Store, name: string)
    requires Consistent(st)
    ensures Consistent(DeleteFile(st, name).0)
  {
  }

  /** No record lists an inverted range. */
  predicate RangesOrdered(st: Store)
  {
    forall n, k :: n in st.meta && k in st.meta[n].chunks ==> k.start <= k.end
  }

  /** Concluding on a record free of inverted ranges keeps every record
      free of them: the record is dropped, left alone or stored. */
  lemma ConcludeKeepsRangesOrdered(st: Store, name: string, md: Metadata, now: nat)
    requires RangesOrdered(st) && md.totalBytes.Some?
    requires forall k :: k in md.chunks ==> k.start <= k.end
    ensures RangesOrdered(Conclude(st, name, md, now).store)
  {
    var meta := Conclude(st, name, md, now).store.meta;
    assert meta == st.meta - {name} || meta == st.meta || meta == st.meta[name := md.(lastUpdate := Some(now))];
  }

  /** Admitting only well-ordered ranges keeps every record free of
      inverted ones. */
  lemma SaveChunkKeepsRangesOrdered(st: Store, name: string, data: seq<byte>, start: nat, end: nat, now: nat)
    requires RangesOrdered(st) && start <= end
    ensures RangesOrdered(SaveChunk(st, name, data, start, end, now).store)
  {
    var got := GetFileMetadata(st, name, now);
    assert RangesOrdered(got.0) && forall k :: k in got.1.chunks ==> k.start <= k.end;
    var received := Receive(st, name, data, start, end, now);
    assert received.0.meta == got.0.meta;
    ConcludeKeepsRangesOrdered(received.0, name, received.1, now);
  }

  // ------------------------------------------------------------ completion

  /** A freshly created record satisfies the total invariant. */
  lemma CurrentRecordTotal(st: Store, name: string, now: nat)
    requires name in st.meta ==> TotalIsMaxEnd(st.meta[name])
    ensures TotalIsMaxEnd(GetFileMetadata(st, name, now).1)
  {
  }

  /** `save_chunk` goes on to assemble (and then reports complete or raises)
      exactly when the merged ranges are the single range
      `[0, total_bytes - 1]`, provided the stored total is the largest end
      plus one. Inverted ranges included. */
  lemma SaveChunkAssemblesIffSingleCover(st: Store, name: string, data: seq<byte>, start: nat, end: nat, now: nat)
    requires name in st.meta ==> TotalIsMaxEnd(st.meta[name])
    ensures var md := Receive(st, name, data, start, end, now).1;
      var r := SaveChunk(st, name, data, start, end, now).result;
      md.totalBytes.Some?
      && ((r.Failure? || r.value.state == Complete)
          <==> SingleCover(CalculateReceivedRanges(md.chunks.Keys), md.totalBytes.value))
  {
    var md0 := GetFileMetadata(st, name, now).1;
    CurrentRecordTotal(st, name, now);
    AdmitKeepsTotal(md0, data, start, end, now);
    var md := Receive(st, name, data, start, end, now).1;
    assert ByteRange(start, end) in md.chunks.Keys;
    CompletionIffSingleCover(md.chunks.Keys, md.totalBytes.value);
  }

  /** With no inverted range among the chunks, `save_chunk` goes on to
      assemble exactly when every byte of `[0, total_bytes)` has been
      received. */
  lemma SaveChunkAssemblesIffAllReceived(st: Store, name: string, data: seq<byte>, start: nat, end: nat, now: nat)
    requires name in st.meta ==> TotalIsMaxEnd(st.meta[name])
    requires name in st.meta ==> forall k :: k in st.meta[name].chunks ==> k.start <= k.end
    requires start <= end
    ensures var md := Receive(st, name, data, start, end, now).1;
      var r := SaveChunk(st, name, data, start, end, now).result;
      md.totalBytes.Some?
      && ((r.Failure? || r.value.state == Complete) <==> Union(md.chunks.Keys) == Prefix(md.totalBytes.value))
  {
    var md0 := GetFileMetadata(st, name, now).1;
    CurrentRecordTotal(st, name, now);
    AdmitKeepsTotal(md0, data, start, end, now);
    var md := Receive(st, name, data, start, end, now).1;
    CompletionIffAllBytesReceived(md.chunks.Keys, md.totalBytes.value);
  }

  /** Re-submitting a range the record already lists overwrites its entry
      and leaves `bytes_received`, `total_bytes` and `next_expected_byte` as
      the stored record reports them. */
  lemma ResubmissionKeepsProgress(st: Store, name: string, data: seq<byte>, start: nat, end: nat, now: nat)
    requires name in st.meta && ByteRange(start, end) in st.meta[name].chunks
    requires TotalIsMaxEnd(st.meta[name])
    ensures var r := SaveChunk(st, name, data, start, end, now).result;
      var before := Report(Partial, st.meta[name]);
      r.Success? ==> r.value.bytesReceived == before.bytesReceived
                     && r.value.totalBytes == before.totalBytes
                     && r.value.nextExpected == before.nextExpected
  {
    var md0 := st.meta[name];
    var received := Receive(st, name, data, start, end, now);
    var md := received.1;
    assert md.chunks.Keys == md0.chunks.Keys;
    assert md.totalBytes == md0.totalBytes;
    var o := Conclude(received.0, name, md, now);
    assert o == SaveChunk(st, name, data, start, end, now);
  }

  // ------------------------------------------------------------ failure

  /** When assembly meets a missing staged chunk, the exception leaves
      behind an artifact holding what was written so far, deletes no staged
      chunk, and does not update the record; a later status query reports
      that artifact as complete. */
  lemma FailedAssemblyLeavesTruncatedArtifact(st: Store, name: string, data: seq<byte>, start: nat, end: nat, now: nat, later: nat)
    requires SaveChunk(st, name, data, start, end, now).result.Failure?
    ensures var r := SaveChunk(st, name, data, start, end, now);
      var md := Receive(st, name, data, start, end, now).1;
      r.result.error.ChunkMissingDuringAssembly?
      && ByteRange(r.result.error.start, r.result.error.end) in md.chunks
      && (name, ByteRange(r.result.error.start, r.result.error.end)) !in r.store.staging
      && r.store.meta == GetFileMetadata(st, name, now).0.meta
      && (forall k :: k in st.staging ==> k in r.store.staging)
      && name in r.store.artifacts
      && GetFileStatus(r.store, name, later).1.state == Complete
  {
    var received := Receive(st, name, data, start, end, now);
    var rs := SortedRanges(received.1.chunks.Keys);
    var a := AssembleFrom([], name, rs, received.0.staging);
    assert a.Failure?;
    var i :| 0 <= i < |rs| && rs[i] == a.error.missing && (name, rs[i]) !in received.0.staging
             && AllStaged(name, rs[..i], received.0.staging);
    assert rs[i] in received.1.chunks.Keys;
  }

  /** The exception of a failed assembly names the first listed range
      whose payload is missing, and the artifact left behind holds exactly
      what the reaper would write for the listed ranges before it. */
  lemma ConcludeFailureIsTruncation(st: Store, name: string, md: Metadata, now: nat)
    requires md.totalBytes.Some? && Conclude(st, name, md, now).result.Failure?
    ensures var o := Conclude(st, name, md, now);
      name in o.store.artifacts && o.result.error.ChunkMissingDuringAssembly?
      && AssembleFrom([], name, SortedRanges(md.chunks.Keys), st.staging)
         == Failure(Truncated(ByteRange(o.result.error.start, o.result.error.end), o.store.artifacts[name]))
  {
  }

  /** The artifact a failed assembly leaves behind is the reaper's output
      for the sorted listing up to the missing range. */
  lemma FailedAssemblyArtifactIsReclaimedPrefix(st: Store, name: string, data: seq<byte>, start: nat, end: nat, now: nat)
    requires SaveChunk(st, name, data, start, end, now).result.Failure?
    ensures var r := SaveChunk(st, name, data, start, end, now);
      var received := Receive(st, name, data, start, end, now);
      var rs := SortedRanges(received.1.chunks.Keys);
      name in r.store.artifacts && r.result.Failure? && r.result.error.ChunkMissingDuringAssembly?
      && exists i :: 0 <= i < |rs| && rs[i] == ByteRange(r.result.error.start, r.result.error.end)
           && r.store.artifacts[name] == ReclaimFrom([], name, rs[..i], received.0.staging)
  {
    var received := Receive(st, name, data, start, end, now);
    var rs := SortedRanges(received.1.chunks.Keys);
    ConcludeFailureIsTruncation(received.0, name, received.1, now);
    var a := AssembleFrom([], name, rs, received.0.staging);
    var i :| 0 <= i < |rs| && rs[i] == a.error.missing && (name, rs[i]) !in received.0.staging
             && AllStaged(name, rs[..i], received.0.staging);
    TruncatedIsReclaimedPrefix([], name, rs, received.0.staging, i);
  }

  // ------------------------------------------------------------ status

  /** The record for an unknown name: status creates it and reports it as
      partial with nothing received. */
  lemma StatusOfUnknownNameIsPartial(st: Store, name: string, now: nat)
    requires name !in st.artifacts && name !in st.meta
    ensures GetFileStatus(st, name, now).1 == Progress(Partial, 0, None, 0)
    ensures GetFileStatus(st, name, now).0.meta == st.meta[name := FreshMetadata(now)]
  {
    assert SortedRanges({}) == [];
  }

  /** After a completed upload is deleted, its status reads partial, not
      pending, and a record appears for it. */
  lemma StatusAfterDeleteIsNotPending(st: Store, name: string, now: nat)
    requires name in st.artifacts && name !in st.meta
    ensures DeleteFile(st, name).1
    ensures GetFileStatus(DeleteFile(st, name).0, name, now).1 == Progress(Partial, 0, None, 0)
  {
    StatusOfUnknownNameIsPartial(DeleteFile(st, name).0, name, now);
  }

  /** The status query the `pending` branch and the deletion test expect:
      it looks the record up without creating one, so a name with neither
      an artifact nor a record is pending. */
  function PeekFileStatus(st: Store, name: string): (r: Progress)
    ensures r.state == Pending <==> name !in st.artifacts && name !in st.meta
    ensures r.state == Complete <==> name in st.artifacts
    ensures r.state == Pending ==> r == Progress(Pending, 0, None, 0)
  {
    if name in st.artifacts then
      var n := |st.artifacts[name]|;
      Progress(Complete, n, Some(n), n)
    else if name in st.meta then Report(Partial, st.meta[name])
    else Progress(Pending, 0, None, 0)
  }

  /** Wherever an artifact or a record exists, the look-up-only query reports
      what `get_file_status` reports. */
  lemma PeekAgreesWithStatus(st: Store, name: string, now: nat)
    requires name in st.artifacts || name in st.meta
    ensures PeekFileStatus(st, name) == GetFileStatus(st, name, now).1
  {
  }

  /** With the look-up-only query, a deleted upload reads pending and the
      query changes nothing. */
  lemma StatusAfterDeleteIsPending(st: Store, name: string)
    requires name in st.artifacts && name !in st.meta
    ensures DeleteFile(st, name).1
    ensures PeekFileStatus(DeleteFile(st, name).0, name) == Progress(Pending, 0, None, 0)
  {
  }

  /** The first chunk received under a new name is the record's only key. */
  lemma FirstChunkIsOnlyKey(st: Store, name: string, data: seq<byte>, start: nat, end: nat, now: nat)
    requires name !in st.meta
    ensures Receive(st, name, data, start, end, now).1.chunks.Keys == {ByteRange(start, end)}
    ensures Receive(st, name, data, start, end, now).1.totalBytes == Some(end + 1)
  {
    assert GetFileMetadata(st, name, now).1.chunks == map[];
  }

  /** A chunk received under a recorded name joins the record's keys, and
      the total becomes the larger of the old one and `end + 1`. */
  lemma ReceiveAddsKey(st: Store, name: string, data: seq<byte>, start: nat, end: nat, now: nat)
    requires name in st.meta
    ensures var md := Receive(st, name, data, start, end, now).1;
      md.chunks.Keys == st.meta[name].chunks.Keys + {ByteRange(start, end)}
      && md.totalBytes == Some(NewTotal(st.meta[name].totalBytes, end))
  {
  }

  /** A `save_chunk` whose received count misses the total saves the
      record: it reports partial and keeps the chunks and the total of the
      record it built. */
  lemma SaveChunkPartial(st: Store, name: string, data: seq<byte>, start: nat, end: nat, now: nat)
    requires var md := Receive(st, name, data, start, end, now).1;
      Report(Complete, md).bytesReceived != md.totalBytes.value
    ensures var md := Receive(st, name, data, start, end, now).1;
      var o := SaveChunk(st, name, data, start, end, now);
      o.result == Success(Report(Partial, md)) && name in o.store.meta
      && o.store.meta[name].chunks == md.chunks && o.store.meta[name].totalBytes == md.totalBytes
  {
  }

  /** First step of the stall: `[11, 5]` under a new name is partial with
      `-5` bytes received and a total of 6. */
  lemma InvertedFirstChunk(st: Store, name: string, d1: seq<byte>, t1: nat)
    requires name !in st.meta
    ensures var o1 := SaveChunk(st, name, d1, 11, 5, t1);
      o1.result.Success? && o1.result.value.state == Partial && o1.result.value.bytesReceived == -5
      && name in o1.store.meta && o1.store.meta[name].chunks.Keys == {ByteRange(11, 5)}
      && o1.store.meta[name].totalBytes == Some(6)
  {
    FirstChunkIsOnlyKey(st, name, d1, 11, 5, t1);
    InvertedRangeCountsNegative();
    SaveChunkPartial(st, name, d1, 11, 5, t1);
  }

  /** Second step: `[0, 9]` completes the coverage of `[0, 10)` but counts
      5 bytes against a total of 10, so the upload stays partial. */
  lemma CoveringChunkStalls(st: Store, name: string, d2: seq<byte>, t2: nat)
    requires name in st.meta && st.meta[name].chunks.Keys == {ByteRange(11, 5)} && st.meta[name].totalBytes == Some(6)
    ensures var o2 := SaveChunk(st, name, d2, 0, 9, t2);
      o2.result.Success? && o2.result.value.state == Partial
      && o2.result.value.bytesReceived == 5 && o2.result.value.totalBytes == Some(10)
      && name in o2.store.meta && o2.store.meta[name].chunks.Keys == {ByteRange(0, 9), ByteRange(11, 5)}
      && o2.store.meta[name].totalBytes == Some(10) && Union(o2.store.meta[name].chunks.Keys) == Prefix(10)
  {
    ReceiveAddsKey(st, name, d2, 0, 9, t2);
    var md := Receive(st, name, d2, 0, 9, t2).1;
    assert md.chunks.Keys == {ByteRange(0, 9), ByteRange(11, 5)};
    InvertedRangeStallsCompletion();
    SaveChunkPartial(st, name, d2, 0, 9, t2);
  }

  /** Third step: `[10, 10]` bridges the gap before the inverted range and
      the upload completes with 11 bytes. */
  lemma BridgingChunkCompletes(st: Store, name: string, d3: seq<byte>, t3: nat)
    requires Consistent(st)
    requires name in st.meta && st.meta[name].chunks.Keys == {ByteRange(0, 9), ByteRange(11, 5)}
    requires st.meta[name].totalBytes == Some(10)
    ensures var o3 := SaveChunk(st, name, d3, 10, 10, t3);
      o3.result.Success? && o3.result.value.state == Complete && o3.result.value.bytesReceived == 11
  {
    ReceiveAddsKey(st, name, d3, 10, 10, t3);
    var md := Receive(st, name, d3, 10, 10, t3).1;
    assert md.chunks.Keys == {ByteRange(0, 9), ByteRange(10, 10), ByteRange(11, 5)};
    BridgedInvertedRangeMerges();
    SaveChunkKeepsConsistent(st, name, d3, 10, 10, t3);
  }

  /** An inverted first chunk stalls an upload although every byte arrives:
      after `[11, 5]` and then `[0, 9]` under a new name every byte of
      `[0, total_bytes)` is recorded, but `bytes_received` is 5 against a
      total of 10 and the upload stays partial. It does not stay stuck: a
      further chunk `[10, 10]` merges everything into `[0, 10]` and
      completes it. */
  lemma InvertedFirstChunkStallsUpload(st: Store, name: string, d1: seq<byte>, d2: seq<byte>, d3: seq<byte>, t1: nat, t2: nat, t3: nat)
    requires Consistent(st) && name !in st.meta
    ensures var o1 := SaveChunk(st, name, d1, 11, 5, t1);
      var o2 := SaveChunk(o1.store, name, d2, 0, 9, t2);
      var o3 := SaveChunk(o2.store, name, d3, 10, 10, t3);
      o1.result.Success? && o1.result.value.state == Partial && o1.result.value.bytesReceived == -5
      && o2.result.Success? && o2.result.value.state == Partial
      && o2.result.value.bytesReceived == 5 && o2.result.value.totalBytes == Some(10)
      && name in o2.store.meta && Union(o2.store.meta[name].chunks.Keys) == Prefix(10)
      && o3.result.Success? && o3.result.value.state == Complete && o3.result.value.bytesReceived == 11
  {
    var o1 := SaveChunk(st, name, d1, 11, 5, t1);
    InvertedFirstChunk(st, name, d1, t1);
    SaveChunkKeepsConsistent(st, name, d1, 11, 5, t1);
    var o2 := SaveChunk(o1.store, name, d2, 0, 9, t2);
    CoveringChunkStalls(o1.store, name, d2, t2);
    SaveChunkKeepsConsistent(o1.store, name, d2, 0, 9, t2);
    BridgingChunkCompletes(o2.store, name, d3, t3);
  }

  // ------------------------------------------------------------ round trip

  /** Ranges that declare every byte of `[0, n)` and end below `n` have
      `n` as their largest end plus one. */
  lemma CoveringTotal(md: Metadata, n: nat)
    requires TotalIsMaxEnd(md) && md.totalBytes.Some? && n > 0
    requires forall k :: k in md.chunks ==> k.end < n
    requires Union(md.chunks.Keys) == Prefix(n)
    ensures md.totalBytes.value == n
  {
    assert n - 1 in Union(md.chunks.Keys);
    var k :| k in md.chunks.Keys && k.start <= n - 1 <= k.end && Covers(k, n - 1);
    var j :| j in md.chunks && j.end + 1 == md.totalBytes.value;
  }

  /** The sorted chunk listing of a covering record declares every byte. */
  lemma ListingCovers(keys: set<ByteRange>, n: nat)
    requires Union(keys) == Prefix(n)
    ensures CoversFrom(SortedRanges(keys), 0, n)
  {
    var rs := SortedRanges(keys);
    forall x: nat | 0 <= x < n
      ensures Declared(rs, x)
    {
      assert x in Union(keys);
      var k :| k in keys && k.start <= x <= k.end && Covers(k, x);
      var i :| 0 <= i < |rs| && rs[i] == k;
    }
  }

  /** Every chunk a record lists is a staged slice of `orig`. */
  predicate StagedSlices(st: Store, name: string, md: Metadata, orig: seq<byte>)
  {
    forall k :: k in md.chunks ==>
      k.start <= k.end < |orig| && (name, k) in st.staging && st.staging[(name, k)] == orig[k.start..k.end + 1]
  }

  /** When the received count reaches the total and assembly finds every
      chunk, concluding reports complete and stores the assembled file. */
  lemma ConcludeAssembled(st: Store, name: string, md: Metadata, now: nat, file: seq<byte>)
    requires md.totalBytes.Some? && Report(Complete, md).bytesReceived == md.totalBytes.value
    requires AssembleFrom([], name, SortedRanges(md.chunks.Keys), st.staging) == Success(file)
    ensures var r := Conclude(st, name, md, now);
      r.result == Success(Report(Complete, md)) && name in r.store.artifacts && r.store.artifacts[name] == file
  {
  }

  /** The sorted listing of a record whose chunks are staged slices of
      `orig` is a list of staged slices of `orig`. */
  lemma ListingSlices(st: Store, name: string, md: Metadata, orig: seq<byte>)
    requires StagedSlices(st, name, md, orig)
    ensures SlicesOf(orig, name, SortedRanges(md.chunks.Keys), st.staging)
  {
    var rs := SortedRanges(md.chunks.Keys);
    forall i | 0 <= i < |rs|
      ensures rs[i].start <= rs[i].end < |orig|
      ensures (name, rs[i]) in st.staging
      ensures st.staging[(name, rs[i])] == orig[rs[i].start..rs[i].end + 1]
    {
      assert rs[i] in md.chunks.Keys;
    }
  }

  /** Concluding on a record whose staged slices cover all of `orig`
      assembles `orig`. */
  lemma ConcludeSlices(st: Store, name: string, md: Metadata, orig: seq<byte>, now: nat)
    requires TotalIsMaxEnd(md) && md.totalBytes.Some? && |orig| > 0
    requires StagedSlices(st, name, md, orig)
    requires Union(md.chunks.Keys) == Prefix(|orig|)
    ensures var r := Conclude(st, name, md, now);
      r.result.Success? && r.result.value.state == Complete && r.result.value.bytesReceived == |orig|
      && name in r.store.artifacts && r.store.artifacts[name] == orig
  {
    var keys := md.chunks.Keys;
    var rs := SortedRanges(keys);
    CoveringTotal(md, |orig|);
    CompletionIffAllBytesReceived(keys, |orig|);
    assert StartsSorted(rs);
    ListingSlices(st, name, md, orig);
    ListingCovers(keys, |orig|);
    AssembleReproducesOriginal(orig, name, rs, st.staging);
    ConcludeAssembled(st, name, md, now, orig);
  }

  /** Receiving a slice of `orig` keeps every chunk of the record a staged
      slice of `orig`. */
  lemma ReceiveKeepsSlices(st: Store, name: string, orig: seq<byte>, start: nat, end: nat, now: nat)
    requires start <= end < |orig|
    requires name in st.meta ==> StagedSlices(st, name, st.meta[name], orig)
    ensures var received := Receive(st, name, orig[start..end + 1], start, end, now);
      StagedSlices(received.0, name, received.1, orig)
  {
    var got := GetFileMetadata(st, name, now);
    var received := Receive(st, name, orig[start..end + 1], start, end, now);
    var arrived := ByteRange(start, end);
    forall k | k in received.1.chunks
      ensures k.start <= k.end < |orig| && (name, k) in received.0.staging
      ensures received.0.staging[(name, k)] == orig[k.start..k.end + 1]
    {
      if k != arrived {
        assert k in got.1.chunks;
      }
    }
  }

  /** A whole file saved as one chunk under a new name completes at once
      with the file as artifact. */
  lemma WholeFileChunkCompletes(st: Store, name: string, orig: seq<byte>, now: nat)
    requires Consistent(st) && name !in st.meta && |orig| > 0
    ensures var r := SaveChunk(st, name, orig[0..|orig|], 0, |orig| - 1, now);
      r.result.Success? && r.result.value.state == Complete && r.result.value.bytesReceived == |orig|
      && name in r.store.artifacts && r.store.artifacts[name] == orig
  {
    var n := |orig|;
    FirstChunkIsOnlyKey(st, name, orig[0..n], 0, n - 1, now);
    SingleRangeCoversPrefix(n);
    SliceUploadReproducesOriginal(st, name, orig, 0, n - 1, now);
  }

  /** Uploading slices of one original: when a chunk arrives and the chunks
      the record then lists are slices `orig[start..end]` that together
      cover every byte of `orig`, the upload completes and the artifact is
      `orig`, whatever order the chunks arrived in. */
  lemma SliceUploadReproducesOriginal(st: Store, name: string, orig: seq<byte>, start: nat, end: nat, now: nat)
    requires Consistent(st)
    requires start <= end < |orig|
    requires name in st.meta ==> StagedSlices(st, name, st.meta[name], orig)
    requires Union(Receive(st, name, orig[start..end + 1], start, end, now).1.chunks.Keys) == Prefix(|orig|)
    ensures var r := SaveChunk(st, name, orig[start..end + 1], start, end, now);
      r.result.Success? && r.result.value.state == Complete && r.result.value.bytesReceived == |orig|
      && name in r.store.artifacts && r.store.artifacts[name] == orig
  {
    var data := orig[start..end + 1];
    ReceiveKeepsConsistent(st, name, data, start, end, now);
    ReceiveKeepsSlices(st, name, orig, start, end, now);
    var received := Receive(st, name, data, start, end, now);
    ConcludeSlices(received.0, name, received.1, orig, now);
  }

  // ------------------------------------------------------------ reading

  /** Block size of the download stream (1 MiB). */
  const StreamBlockSize: nat := 1024 * 1024

  /** The bytes of `file` at positions `start ..= end` that exist. */
  function RangeBytes(file: seq<byte>, start: nat, end: int): seq<byte>
  {
    if start >= |file| || end < start then [] else file[start..Min(end + 1, |file|)]
  }

  /** Where the read loop stops (all `end - start + 1` bytes read, or the
      file exhausted), what it read is the range. */
  lemma ReadExit(file: seq<byte>, start: nat, end: int, read: nat)
    requires read == 0 || (read <= end - start + 1 && start + read <= |file|)
    requires read >= end - start + 1 || start + read >= |file|
    ensures Clip(file, start, start + read) == RangeBytes(file, start, end)
  {
  }

  /** `read_file_range`: after a seek to `start`, reads of at most 1 MiB until
      `end - start + 1` bytes were delivered or the file is exhausted. The
      non-empty blocks concatenate to the bytes of `[start, end]` that the
      file has: never one past `end`. */
  method ReadFileRange(artifacts: map<string, seq<byte>>, name: string, start: nat, end: int)
    returns (r: Result<seq<seq<byte>>, Error>)
    ensures r.Failure? <==> name !in artifacts
    ensures r.Failure? ==> r.error == FileNotFound
    ensures r.Success? ==> (forall i :: 0 <= i < |r.value| ==> 0 < |r.value[i]| <= StreamBlockSize)
                           && Concat(r.value) == RangeBytes(artifacts[name], start, end)
  {
    if name !in artifacts {
      return Failure(FileNotFound);
    }
    var file := artifacts[name];
    var toRead := end - start + 1;
    var read: nat := 0;
    var blocks: seq<seq<byte>> := [];
    while read < toRead
      invariant read == 0 || (read <= toRead && start + read <= |file|)
      invariant Concat(blocks) == Clip(file, start, start + read)
      invariant forall i :: 0 <= i < |blocks| ==> 0 < |blocks[i]| <= StreamBlockSize
      decreases toRead - read
    {
      var want := Min(StreamBlockSize, toRead - read);
      var pos := start + read;
      var chunk := if pos >= |file| then [] else file[pos..Min(pos + want, |file|)];
      if |chunk| == 0 {
        ReadExit(file, start, end, read);
        return Success(blocks);
      }
      ClipStep(file, start, pos, chunk);
      ConcatAppend(blocks, chunk);
      read := read + |chunk|;
      blocks := blocks + [chunk];
    }
    ReadExit(file, start, end, read);
    return Success(blocks);
  }
}
