/** The stale-upload reaper of app/services/cleanup_service.py: one sweep
    reclaims every record whose `last_update` is older than the timeout,
    writing what was staged to `<name>.partial` and moving the record to
    `<name>.partial.meta`. */
module Cleanup {
  import opened Wrappers
  import opened Bytes
  import opened Intervals
  import opened Assembly
  import opened FileService

  /** `STALE_UPLOAD_TIMEOUT_SECONDS` (24 hours). */
  const StaleUploadTimeoutSeconds: nat := 86400

  /** The staleness test: `last_update` (0 when absent) is older than
      `now - STALE_UPLOAD_TIMEOUT_SECONDS`. */
  predicate IsStale(md: Metadata, now: nat)
    ensures IsStale(md, now) ==> now > StaleUploadTimeoutSeconds && md.lastUpdate.GetOr(0) < now
  {
    md.lastUpdate.GetOr(0) < now - StaleUploadTimeoutSeconds
  }

  function PartialName(name: string): string
  {
    name + ".partial"
  }

  /** The bookkeeping after the `.partial` file is written: the record
      moves to the `.partial` name marked as reclaimed with its timestamps
      untouched, and the listed chunks leave the staging area. */
  function MoveRecord(st: Store, name: string, md: Metadata, partial: seq<byte>): (r: Store)
    ensures name !in r.meta && PartialName(name) in r.meta && r.artifacts == st.artifacts[PartialName(name) := partial]
    ensures r.meta[PartialName(name)] == md.(reclaimed := true)
    ensures r.staging.Keys <= st.staging.Keys
    ensures forall k :: k in md.chunks ==> (name, k) !in r.staging
    ensures forall n :: n != name && n != PartialName(name) ==>
              (n in r.meta <==> n in st.meta) && (n in st.meta ==> r.meta[n] == st.meta[n])
    ensures forall n, k :: n != name && (n, k) in st.staging ==> (n, k) in r.staging && r.staging[(n, k)] == st.staging[(n, k)]
  {
    var keys := md.chunks.Keys;
    var unstaged := st.staging - StagedKeys(name, keys);
    assert |PartialName(name)| != |name|;
    assert forall k :: k in md.chunks ==> (name, k) in StagedKeys(name, keys);
    assert forall n, k :: n != name && (n, k) in st.staging ==> (n, k) in unstaged;
    Store(st.meta[PartialName(name) := md.(reclaimed := true)] - {name}, unstaged, st.artifacts[PartialName(name) := partial])
  }

  /** `process_stale_upload`: the listed chunks, sorted, are written from an
      empty file, a missing staged chunk being skipped; the written chunks
      are deleted, the record is stored under the `.partial` name marked as
      reclaimed with its timestamps untouched, and the original record is
      removed. */
  function ProcessStaleUpload(st: Store, name: string, md: Metadata): (r: Store)
    ensures name !in r.meta && PartialName(name) in r.meta && PartialName(name) in r.artifacts
    ensures r.meta[PartialName(name)].chunks == md.chunks && r.meta[PartialName(name)].lastUpdate == md.lastUpdate
    ensures r.meta[PartialName(name)].reclaimed
    ensures r.artifacts.Keys == st.artifacts.Keys + {PartialName(name)} && r.staging.Keys <= st.staging.Keys
    ensures forall k :: k in md.chunks ==> (name, k) !in r.staging
    ensures forall n :: n != name && n != PartialName(name) ==>
              (n in r.meta <==> n in st.meta) && (n in st.meta ==> r.meta[n] == st.meta[n])
              && (n in r.artifacts <==> n in st.artifacts) && (n in st.artifacts ==> r.artifacts[n] == st.artifacts[n])
    ensures forall n, k :: n != name && (n, k) in st.staging ==> (n, k) in r.staging && r.staging[(n, k)] == st.staging[(n, k)]
  {
    MoveRecord(st, name, md, ReclaimFrom([], name, SortedRanges(md.chunks.Keys), st.staging))
  }

  /** One iteration of the sweep: a record that is still present and stale
      is reclaimed; anything else is left alone. */
  function ReclaimStep(st: Store, name: string, now: nat): (r: Store)
    ensures name in st.meta && IsStale(st.meta[name], now) ==> name !in r.meta && PartialName(name) in r.artifacts
    ensures !(name in st.meta && IsStale(st.meta[name], now)) ==> r == st
    ensures st.artifacts.Keys <= r.artifacts.Keys && r.staging.Keys <= st.staging.Keys
  {
    if name in st.meta && IsStale(st.meta[name], now) then ProcessStaleUpload(st, name, st.meta[name]) else st
  }

  /** One sweep over the record names found when it started, in that order. */
  function Sweep(st: Store, names: seq<string>, now: nat): (r: Store)
    ensures st.artifacts.Keys <= r.artifacts.Keys && r.staging.Keys <= st.staging.Keys
    decreases |names|
  {
    if |names| == 0 then st else Sweep(ReclaimStep(st, names[0], now), names[1..], now)
  }

  /** A sweep leaves the record of a name alone when neither it nor its
      `.partial` source is listed. */
  lemma {:induction false} SweepKeepsUnlisted(st: Store, names: seq<string>, now: nat, n: string)
    requires n !in names && forall i :: 0 <= i < |names| ==> PartialName(names[i]) != n
    ensures var r := Sweep(st, names, now);
      (n in r.meta <==> n in st.meta) && (n in st.meta ==> r.meta[n] == st.meta[n])
    decreases |names|
  {
    if |names| > 0 {
      SweepKeepsUnlisted(ReclaimStep(st, names[0], now), names[1..], now, n);
    }
  }

  /** After a sweep no listed name still holds a stale record, provided no
      listed name is the `.partial` name of another (the reaper's own
      output would otherwise be created behind the sweep). */
  lemma {:induction false} SweepLeavesNoStale(st: Store, names: seq<string>, now: nat)
    requires forall i, j :: 0 <= i < |names| && 0 <= j < |names| ==> PartialName(names[i]) != names[j]
    ensures var r := Sweep(st, names, now);
      forall i :: 0 <= i < |names| && names[i] in r.meta ==> !IsStale(r.meta[names[i]], now)
    decreases |names|
  {
    if |names| > 0 {
      var st1 := ReclaimStep(st, names[0], now);
      var rest := names[1..];
      SweepLeavesNoStale(st1, rest, now);
      var r := Sweep(st, names, now);
      if names[0] !in rest {
        forall i | 0 <= i < |rest|
          ensures PartialName(rest[i]) != names[0]
        {
          assert rest[i] == names[i + 1];
        }
        SweepKeepsUnlisted(st1, rest, now, names[0]);
      }
      forall i | 0 <= i < |names| && names[i] in r.meta
        ensures !IsStale(r.meta[names[i]], now)
      {
        if i > 0 {
          assert names[i] == rest[i - 1];
        } else if names[0] in rest {
          var j :| 0 <= j < |rest| && rest[j] == names[0];
        }
      }
    }
  }

  /** With every listed chunk staged, the `.partial` file holds exactly the
      bytes the assembler would write for the same record. */
  lemma ReclaimAgreesWithAssembler(st: Store, name: string, md: Metadata)
    requires forall k :: k in md.chunks ==> (name, k) in st.staging
    ensures AssembleFrom([], name, SortedRanges(md.chunks.Keys), st.staging)
            == Success(ProcessStaleUpload(st, name, md).artifacts[PartialName(name)])
  {
    var rs := SortedRanges(md.chunks.Keys);
    forall i | 0 <= i < |rs|
      ensures (name, rs[i]) in st.staging
    {
      assert rs[i] in md.chunks.Keys;
    }
    AssembleAgreesWithReclaim([], name, rs, st.staging);
  }

  /** The reclaimed record keeps the `last_update` that made it stale, so it
      is stale again at every later sweep. */
  lemma ReclaimedRecordStaysStale(st: Store, name: string, now: nat, later: nat)
    requires name in st.meta && IsStale(st.meta[name], now) && now <= later
    ensures var r := ReclaimStep(st, name, now);
      PartialName(name) in r.meta && IsStale(r.meta[PartialName(name)], later)
  {
  }

  /** The skipping loop writes nothing when no listed chunk is staged. */
  lemma {:induction false} ReclaimNothingStaged(file: seq<byte>, name: string, ranges: seq<ByteRange>, staging: Staging)
    requires forall i :: 0 <= i < |ranges| ==> (name, ranges[i]) !in staging
    ensures ReclaimFrom(file, name, ranges, staging) == file
    decreases |ranges|
  {
    if |ranges| > 0 {
      ReclaimNothingStaged(file, name, ranges[1..], staging);
    }
  }

  /** The next sweep reclaims the reaper's own output again: with nothing
      staged under the `.partial` name, it writes an empty
      `<name>.partial.partial` and moves the record once more. */
  lemma SecondSweepReclaimsAgain(st: Store, name: string, now: nat, later: nat)
    requires name in st.meta && IsStale(st.meta[name], now) && now <= later
    requires forall k :: (PartialName(name), k) !in st.staging
    ensures var st1 := ReclaimStep(st, name, now);
      var st2 := ReclaimStep(st1, PartialName(name), later);
      PartialName(name) !in st2.meta
      && PartialName(PartialName(name)) in st2.meta
      && st2.artifacts[PartialName(PartialName(name))] == []
  {
    var st1 := ReclaimStep(st, name, now);
    var md := st1.meta[PartialName(name)];
    assert PartialName(name) != name by { assert |PartialName(name)| != |name|; }
    var rs := SortedRanges(md.chunks.Keys);
    ReclaimNothingStaged([], PartialName(name), rs, st1.staging);
  }

  /** A record `save_chunk` just saved as partial is not stale at that
      moment, nor at any sweep within the timeout. */
  lemma SavedRecordIsFresh(st: Store, name: string, data: seq<byte>, start: nat, end: nat, now: nat, later: nat)
    requires later <= now + StaleUploadTimeoutSeconds
    ensures var r := SaveChunk(st, name, data, start, end, now);
      r.result.Success? && r.result.value.state == Partial ==> name in r.store.meta && !IsStale(r.store.meta[name], later)
  {
  }
}
