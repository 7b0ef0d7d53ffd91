/** The interval arithmetic of the upload service
    (`_calculate_received_ranges` and `_calculate_next_expected_byte` in
    app/services/file_service.py): chunk ranges are listed in ascending
    tuple order, merged left to right, and the progress figures
    `bytes_received` and `next_expected_byte` are read off the merge. */
module Intervals {
  import opened Wrappers
  import opened Bytes

  /** The inclusive range `[start, end]` a chunk header declares. Nothing on
      the upload path forces `start <= end`. */
  datatype ByteRange = ByteRange(start: nat, end: nat)

  // ---------------------------------------------------------------- order

  /** Python's tuple comparison `(s1, e1) < (s2, e2)`. */
  predicate Before(a: ByteRange, b: ByteRange)
  {
    a.start < b.start || (a.start == b.start && a.end < b.end)
  }

  predicate StrictlySorted(rs: seq<ByteRange>)
  {
    forall i, j :: 0 <= i < j < |rs| ==> Before(rs[i], rs[j])
  }

  predicate IsLeast(m: ByteRange, s: set<ByteRange>)
  {
    m in s && forall x :: x in s && x != m ==> Before(m, x)
  }

  lemma {:induction false} LeastExists(s: set<ByteRange>)
    requires s != {}
    ensures exists m :: IsLeast(m, s)
    decreases |s|
  {
    var y :| y in s;
    if s == {y} {
      assert IsLeast(y, s);
    } else {
      LeastExists(s - {y});
      var m :| IsLeast(m, s - {y});
      if Before(y, m) {
        forall x | x in s && x != y
          ensures Before(y, x)
        {
          if x != m {
            assert x in s - {y};
          }
        }
        assert IsLeast(y, s);
      } else {
        assert IsLeast(m, s);
      }
    }
  }

  /** `sorted(ranges)` where `ranges` lists the keys of the chunk map in
      whatever order the map yields them: the keys in ascending tuple order.
      Because the keys are distinct the order is strict. */
  function SortedRanges(s: set<ByteRange>): (rs: seq<ByteRange>)
    ensures StrictlySorted(rs)
    ensures forall r :: r in rs <==> r in s
    ensures |rs| == |s|
    decreases |s|
  {
    if s == {} then []
    else
      LeastExists(s);
      var m :| IsLeast(m, s);
      var rest := SortedRanges(s - {m});
      PrependLeast(m, s, rest);
      [m] + rest
  }

  /** The least element of `s` in front of a sorted listing of the others is
      a sorted listing of `s`. */
  lemma PrependLeast(m: ByteRange, s: set<ByteRange>, rest: seq<ByteRange>)
    requires IsLeast(m, s) && StrictlySorted(rest)
    requires forall r :: r in rest <==> r in s - {m}
    requires |rest| == |s - {m}|
    ensures StrictlySorted([m] + rest)
    ensures forall r :: r in [m] + rest <==> r in s
    ensures |[m] + rest| == |s|
  {
    var rs := [m] + rest;
    forall i, j | 0 <= i < j < |rs|
      ensures Before(rs[i], rs[j])
    {
      assert rs[j] == rest[j - 1] && rest[j - 1] in s - {m};
      if i > 0 {
        assert rs[i] == rest[i - 1];
      }
    }
  }

  /** The head of a strictly sorted listing comes before every other element. */
  lemma FirstIsLeast(s: seq<ByteRange>, x: ByteRange)
    requires StrictlySorted(s) && x in s
    ensures x == s[0] || Before(s[0], x)
  {
    var i :| 0 <= i < |s| && s[i] == x;
  }

  /** Two strictly sorted listings of the same ranges are the same list. */
  lemma {:induction false} SortedListingsEqual(a: seq<ByteRange>, b: seq<ByteRange>)
    requires StrictlySorted(a) && StrictlySorted(b)
    requires forall r :: r in a <==> r in b
    ensures a == b
    decreases |a|
  {
    assert b == [] || b[0] in a;
    assert a == [] || a[0] in b;
    if |a| > 0 {
      var a0, b0 := a[0], b[0];
      FirstIsLeast(a, b0);
      FirstIsLeast(b, a0);
      assert a0 == b0;
      forall r
        ensures r in a[1..] <==> r in b[1..]
      {
        if r in a[1..] {
          var i :| 1 <= i < |a| && a[i] == r;
          assert Before(a[0], r);
          assert r in b;
        }
        if r in b[1..] {
          var j :| 1 <= j < |b| && b[j] == r;
          assert Before(b[0], r);
          assert r in a;
        }
      }
      SortedListingsEqual(a[1..], b[1..]);
    }
  }

  /** However the chunk map enumerates its keys, sorting gives the same list:
      any strictly sorted listing of the key set is `SortedRanges` of it. */
  lemma SortIsOrderIndependent(listing: seq<ByteRange>, keys: set<ByteRange>)
    requires StrictlySorted(listing)
    requires forall r :: r in listing <==> r in keys
    ensures listing == SortedRanges(keys)
  {
    SortedListingsEqual(listing, SortedRanges(keys));
  }

  // ---------------------------------------------------------------- merge

  function Last(rs: seq<ByteRange>): ByteRange
    requires |rs| > 0
  {
    rs[|rs| - 1]
  }

  /** One iteration of the merge loop: append when the range starts more
      than one byte past the last merged end, else widen the last one. */
  function MergeStep(ms: seq<ByteRange>, c: ByteRange): seq<ByteRange>
  {
    if |ms| == 0 || c.start > Last(ms).end + 1 then ms + [c]
    else ms[..|ms| - 1] + [ByteRange(Last(ms).start, Max(Last(ms).end, c.end))]
  }

  /** The merge loop after consuming `rs` from left to right. */
  function Merge(rs: seq<ByteRange>): (ms: seq<ByteRange>)
    ensures |ms| <= |rs| && (|ms| == 0 <==> |rs| == 0)
  {
    if |rs| == 0 then [] else MergeStep(Merge(rs[..|rs| - 1]), Last(rs))
  }

  predicate StartsSorted(rs: seq<ByteRange>)
  {
    forall i, j :: 0 <= i < j < |rs| ==> rs[i].start <= rs[j].start
  }

  predicate WellFormed(rs: seq<ByteRange>)
  {
    forall i :: 0 <= i < |rs| ==> rs[i].start <= rs[i].end
  }

  /** Merged shape: starts in order, and at least one uncovered byte between
      the end of a range and the start of any later one (no overlapping or
      touching ranges). */
  predicate Separated(ms: seq<ByteRange>)
  {
    forall i, j :: 0 <= i < j < |ms| ==> ms[i].end + 2 <= ms[j].start && ms[i].start <= ms[j].start
  }

  /** The largest declared end (0 for no ranges). */
  function MaxEnd(rs: seq<ByteRange>): nat
  {
    if |rs| == 0 then 0 else Max(MaxEnd(rs[..|rs| - 1]), Last(rs).end)
  }

  lemma {:induction false} MaxEndBounds(rs: seq<ByteRange>)
    ensures forall i :: 0 <= i < |rs| ==> rs[i].end <= MaxEnd(rs)
    ensures |rs| > 0 ==> exists i :: 0 <= i < |rs| && rs[i].end == MaxEnd(rs)
  {
    if |rs| > 0 {
      MaxEndBounds(rs[..|rs| - 1]);
      if |rs| > 1 && MaxEnd(rs[..|rs| - 1]) > Last(rs).end {
        var i :| 0 <= i < |rs| - 1 && rs[..|rs| - 1][i].end == MaxEnd(rs[..|rs| - 1]);
        assert rs[i].end == MaxEnd(rs);
      }
    }
  }

  /** On start-sorted input the last merged range starts no later than the
      last input range. */
  lemma {:induction false} MergeLastStart(rs: seq<ByteRange>)
    requires |rs| > 0 && StartsSorted(rs)
    ensures |Merge(rs)| > 0 && Last(Merge(rs)).start <= Last(rs).start
  {
    var p := rs[..|rs| - 1];
    if |p| > 0 {
      assert StartsSorted(p);
      MergeLastStart(p);
      assert Last(p).start <= Last(rs).start;
    }
  }

  lemma StepSeparated(ms: seq<ByteRange>, c: ByteRange)
    requires Separated(ms)
    requires |ms| > 0 ==> Last(ms).start <= c.start
    ensures Separated(MergeStep(ms, c))
  {
    var r := MergeStep(ms, c);
    var k := |ms| - 1;
    if |ms| == 0 || c.start > Last(ms).end + 1 {
      forall i, j | 0 <= i < j < |r|
        ensures r[i].end + 2 <= r[j].start && r[i].start <= r[j].start
      {
        assert r[i] == ms[i];
        if j == |ms| {
          if i < k {
            assert ms[i].end + 2 <= ms[k].start && ms[i].start <= ms[k].start;
          }
        } else {
          assert r[j] == ms[j];
        }
      }
    } else {
      forall i, j | 0 <= i < j < |r|
        ensures r[i].end + 2 <= r[j].start && r[i].start <= r[j].start
      {
        assert r[i] == ms[i];
        if j == k {
          assert r[j].start == ms[k].start;
        } else {
          assert r[j] == ms[j];
        }
      }
    }
  }

  /** The merge of start-sorted input is separated. */
  lemma {:induction false} MergeSeparated(rs: seq<ByteRange>)
    requires StartsSorted(rs)
    ensures Separated(Merge(rs))
  {
    if |rs| > 0 {
      var p := rs[..|rs| - 1];
      assert StartsSorted(p);
      MergeSeparated(p);
      if |p| > 0 {
        MergeLastStart(p);
        assert Last(p).start <= Last(rs).start;
      }
      StepSeparated(Merge(p), Last(rs));
    }
  }

  lemma StepWellFormed(ms: seq<ByteRange>, c: ByteRange)
    requires WellFormed(ms) && c.start <= c.end
    ensures WellFormed(MergeStep(ms, c))
  {
    var r := MergeStep(ms, c);
    forall i | 0 <= i < |r|
      ensures r[i].start <= r[i].end
    {
      if i < |ms| - 1 {
        assert r[i] == ms[i];
      }
    }
  }

  /** Merging well-formed ranges gives well-formed ranges. */
  lemma {:induction false} MergeWellFormed(rs: seq<ByteRange>)
    ensures WellFormed(rs) ==> WellFormed(Merge(rs))
  {
    if |rs| > 0 && WellFormed(rs) {
      var p := rs[..|rs| - 1];
      assert WellFormed(p);
      MergeWellFormed(p);
      StepWellFormed(Merge(p), Last(rs));
    }
  }

  /** No merged range ends later than the largest input end. */
  lemma {:induction false} MergeEndsBounded(rs: seq<ByteRange>)
    ensures forall i :: 0 <= i < |Merge(rs)| ==> Merge(rs)[i].end <= MaxEnd(rs)
  {
    if |rs| > 0 {
      MergeEndsBounded(rs[..|rs| - 1]);
    }
  }

  // ---------------------------------------------------------------- coverage

  predicate Covers(r: ByteRange, x: int)
  {
    r.start <= x <= r.end
  }

  /** The bytes a range declares (empty when inverted). */
  function Span(r: ByteRange): set<nat>
  {
    set x: nat | r.start <= x <= r.end && Covers(r, x)
  }

  /** The bytes covered by a list of ranges. */
  function Points(rs: seq<ByteRange>): set<nat>
  {
    if |rs| == 0 then {} else Points(rs[..|rs| - 1]) + Span(Last(rs))
  }

  /** The bytes covered by a set of ranges: the union of their spans. */
  function Union(keys: set<ByteRange>): set<nat>
  {
    set r, x: nat | r in keys && r.start <= x <= r.end && Covers(r, x) :: x
  }

  /** The single range `[0, n - 1]` covers exactly the bytes `[0, n)`. */
  lemma SingleRangeCoversPrefix(n: nat)
    requires n > 0
    ensures Union({ByteRange(0, n - 1)}) == Prefix(n)
  {
    var u := Union({ByteRange(0, n - 1)});
    forall x: nat
      ensures x in u <==> x < n
    {
      if x < n {
        assert Covers(ByteRange(0, n - 1), x);
      }
    }
  }

  lemma {:induction false} PointsMember(rs: seq<ByteRange>, x: nat)
    ensures x in Points(rs) <==> exists i :: 0 <= i < |rs| && rs[i].start <= x <= rs[i].end
  {
    if |rs| > 0 {
      var p := rs[..|rs| - 1];
      PointsMember(p, x);
      if x in Points(rs) && x !in Span(Last(rs)) {
        var i :| 0 <= i < |p| && p[i].start <= x <= p[i].end;
        assert rs[i] == p[i];
      }
      if exists i :: 0 <= i < |rs| && rs[i].start <= x <= rs[i].end {
        var i :| 0 <= i < |rs| && rs[i].start <= x <= rs[i].end;
        if i < |rs| - 1 {
          assert p[i] == rs[i];
        }
      }
    }
  }

  lemma PointsAppend(rs: seq<ByteRange>, c: ByteRange)
    ensures Points(rs + [c]) == Points(rs) + Span(c)
  {
    assert (rs + [c])[..|rs|] == rs;
  }

  /** Listing a set of ranges in any order covers exactly their union. */
  lemma PointsOfListing(rs: seq<ByteRange>, keys: set<ByteRange>)
    requires forall r :: r in rs <==> r in keys
    ensures Points(rs) == Union(keys)
  {
    forall x: nat
      ensures x in Points(rs) <==> x in Union(keys)
    {
      PointsMember(rs, x);
      if x in Points(rs) {
        var i :| 0 <= i < |rs| && rs[i].start <= x <= rs[i].end;
        assert rs[i] in keys && Covers(rs[i], x);
      }
      if x in Union(keys) {
        var r :| r in keys && Covers(r, x);
        var i :| 0 <= i < |rs| && rs[i] == r;
      }
    }
  }

  /** Widening the last merged range by an overlapping or adjacent range
      that starts no earlier covers exactly both. */
  lemma SpanJoin(a: ByteRange, b: ByteRange)
    requires a.start <= b.start <= a.end + 1
    ensures Span(ByteRange(a.start, Max(a.end, b.end))) == Span(a) + Span(b)
  {
  }

  /** The merge covers exactly the bytes of its (start-sorted) input. */
  lemma {:induction false} MergeCoverage(rs: seq<ByteRange>)
    requires StartsSorted(rs)
    ensures Points(Merge(rs)) == Points(rs)
  {
    if |rs| > 0 {
      var p := rs[..|rs| - 1];
      var c := Last(rs);
      assert StartsSorted(p);
      MergeCoverage(p);
      var ms := Merge(p);
      if |ms| == 0 || c.start > Last(ms).end + 1 {
        PointsAppend(ms, c);
      } else {
        var k := |ms| - 1;
        var w := ByteRange(Last(ms).start, Max(Last(ms).end, c.end));
        MergeLastStart(p);
        assert Last(p).start <= c.start;
        SpanJoin(Last(ms), c);
        PointsAppend(ms[..k], w);
        assert ms == ms[..k] + [Last(ms)];
        PointsAppend(ms[..k], Last(ms));
      }
    }
  }

  // ---------------------------------------------------------------- progress

  /** `sum(end - start + 1 for start, end in merged)`; negative terms arise
      from inverted ranges. */
  function BytesReceived(ms: seq<ByteRange>): int
  {
    if |ms| == 0 then 0 else BytesReceived(ms[..|ms| - 1]) + (Last(ms).end - Last(ms).start + 1)
  }

  /** The loop of `_calculate_next_expected_byte` from a given `last_end`. */
  function NextExpectedFrom(rs: seq<ByteRange>, lastEnd: nat): (r: nat)
    ensures r >= lastEnd
  {
    if |rs| == 0 then lastEnd
    else if rs[0].start > lastEnd then lastEnd
    else NextExpectedFrom(rs[1..], Max(lastEnd, rs[0].end + 1))
  }

  /** `_calculate_next_expected_byte(ranges, total_bytes)`; the total is
      accepted and ignored, as in the source. */
  function NextExpected(rs: seq<ByteRange>, totalBytes: Option<nat>): (r: nat)
    ensures |rs| > 0 && rs[0].start == 0 ==> r > rs[0].end
  {
    if |rs| == 0 then 0 else NextExpectedFrom(rs, 0)
  }

  /** `_calculate_received_ranges(chunks)`: the chunk ranges sorted as
      tuples, then merged. */
  function CalculateReceivedRanges(keys: set<ByteRange>): (ms: seq<ByteRange>)
    ensures |ms| <= |keys| && (|ms| == 0 <==> keys == {})
  {
    Merge(SortedRanges(keys))
  }

  /** The merged ranges of a chunk key set depend on the key set only, are
      separated, cover exactly the union of the keys, and number at most as
      many as the keys (at least one when there is any key). */
  lemma ReceivedRangesShape(keys: set<ByteRange>)
    ensures var ms := CalculateReceivedRanges(keys);
      Separated(ms) && Points(ms) == Union(keys) && |ms| <= |keys| && (keys != {} ==> |ms| > 0)
  {
    var rs := SortedRanges(keys);
    assert StartsSorted(rs);
    MergeSeparated(rs);
    MergeCoverage(rs);
    PointsOfListing(rs, keys);
  }

  /** Well-formed chunk ranges merge into well-formed ranges. */
  lemma ReceivedRangesWellFormed(keys: set<ByteRange>)
    requires forall r :: r in keys ==> r.start <= r.end
    ensures WellFormed(CalculateReceivedRanges(keys))
  {
    var rs := SortedRanges(keys);
    forall i | 0 <= i < |rs|
      ensures rs[i].start <= rs[i].end
    {
      assert rs[i] in keys;
    }
    MergeWellFormed(rs);
  }

  /** When every chunk ends before `total`, so does every merged range. */
  lemma ReceivedRangesEndBelow(keys: set<ByteRange>, total: nat)
    requires keys != {}
    requires forall r :: r in keys ==> r.end < total
    ensures forall m :: m in CalculateReceivedRanges(keys) ==> m.end < total
  {
    var rs := SortedRanges(keys);
    MergeEndsBounded(rs);
    MaxEndBounds(rs);
    var j :| 0 <= j < |rs| && rs[j].end == MaxEnd(rs);
    assert rs[j] in keys;
  }

  /** Bytes covered by a set of ranges that all end before `total`. */
  lemma UnionBelow(keys: set<ByteRange>, total: nat)
    requires forall r :: r in keys ==> r.end < total
    ensures forall x :: x in Union(keys) ==> x < total
  {
  }

  // ---------------------------------------------------------------- lemmas

  /** For separated ranges the gaps make the sum fall short of the overall
      extent by at least one byte per gap: sum + (n - 1) <= last.end + 1 -
      first.start, inverted ranges included. */
  lemma {:induction false} SumWithinExtent(ms: seq<ByteRange>)
    requires Separated(ms) && |ms| > 0
    ensures BytesReceived(ms) + |ms| - 1 <= Last(ms).end + 1 - ms[0].start
  {
    if |ms| > 1 {
      var p := ms[..|ms| - 1];
      assert Separated(p);
      SumWithinExtent(p);
      assert Last(p).end + 2 <= Last(ms).start;
    }
  }

  /** The merged set is the single range `[0, total - 1]`. */
  predicate SingleCover(ms: seq<ByteRange>, total: nat)
  {
    |ms| == 1 && ms[0].start == 0 && ms[0].end + 1 == total
  }

  /** The completion test `bytes_received == total_bytes` holds exactly when
      the merge is the one range `[0, total_bytes - 1]`, whenever every
      declared end is below `total_bytes`. This holds even for inverted
      ranges. */
  lemma CompletionIffSingleCover(keys: set<ByteRange>, total: nat)
    requires keys != {}
    requires forall r :: r in keys ==> r.end < total
    ensures BytesReceived(CalculateReceivedRanges(keys)) == total
            <==> SingleCover(CalculateReceivedRanges(keys), total)
  {
    var ms := CalculateReceivedRanges(keys);
    ReceivedRangesShape(keys);
    ReceivedRangesEndBelow(keys, total);
    SeparatedSumIffSingleCover(ms, total);
  }

  /** On separated ranges ending before `total`, the summed lengths reach
      `total` exactly when there is the one range `[0, total - 1]`. */
  lemma SeparatedSumIffSingleCover(ms: seq<ByteRange>, total: nat)
    requires Separated(ms) && |ms| > 0
    requires forall m :: m in ms ==> m.end < total
    ensures BytesReceived(ms) == total <==> SingleCover(ms, total)
  {
    SumWithinExtent(ms);
    assert Last(ms) in ms;
  }

  /** On separated ranges the merge loop stops at the first byte not
      covered: every byte below the result is covered, the result is not. */
  lemma NextExpectedIsFirstGap(ms: seq<ByteRange>, totalBytes: Option<nat>)
    requires Separated(ms)
    ensures NextExpected(ms, totalBytes) !in Points(ms)
    ensures forall x: nat :: x < NextExpected(ms, totalBytes) ==> x in Points(ms)
  {
    var n := NextExpected(ms, totalBytes);
    if |ms| > 0 {
      if ms[0].start > 0 {
        assert n == 0;
      } else {
        assert NextExpectedFrom(ms, 0) == NextExpectedFrom(ms[1..], ms[0].end + 1);
        if |ms| > 1 {
          assert ms[1..][0] == ms[1];
        }
        assert n == ms[0].end + 1;
        forall x: nat | x < n
          ensures x in Points(ms)
        {
          PointsMember(ms, x);
        }
      }
      PointsMember(ms, n);
    }
  }

  /** `next_expected_byte` as the service computes it is the least byte that
      no received chunk covers (0 when nothing was received). */
  lemma NextExpectedIsLeastMissing(keys: set<ByteRange>, totalBytes: Option<nat>)
    ensures NextExpected(CalculateReceivedRanges(keys), totalBytes) !in Union(keys)
    ensures forall x: nat :: x < NextExpected(CalculateReceivedRanges(keys), totalBytes) ==> x in Union(keys)
  {
    ReceivedRangesShape(keys);
    NextExpectedIsFirstGap(CalculateReceivedRanges(keys), totalBytes);
  }

  /** A range of more than one byte declares its last byte on top of what
      the range one shorter declares. */
  lemma SpanExtend(r: ByteRange)
    requires r.start < r.end
    ensures var q := ByteRange(r.start, r.end - 1);
      r.end !in Span(q) && Span(r) == Span(q) + {r.end}
  {
    var q := ByteRange(r.start, r.end - 1);
    forall x: nat
      ensures x in Span(r) <==> x in Span(q) || x == r.end
    {
      assert x in Span(r) <==> Covers(r, x);
      assert x in Span(q) <==> Covers(q, x);
    }
  }

  /** A well-formed range declares `end - start + 1` bytes. */
  lemma {:induction false} SpanSize(r: ByteRange)
    requires r.start <= r.end
    ensures |Span(r)| == r.end - r.start + 1
    decreases r.end - r.start
  {
    if r.start == r.end {
      assert Span(r) == {r.start};
    } else {
      var q := ByteRange(r.start, r.end - 1);
      SpanSize(q);
      SpanExtend(r);
      assert |Span(q) + {r.end}| == |Span(q)| + 1;
    }
  }

  /** On well-formed separated ranges the sum counts every covered byte
      exactly once. */
  lemma {:induction false} SumIsPointCount(ms: seq<ByteRange>)
    requires Separated(ms) && WellFormed(ms)
    ensures |Points(ms)| == BytesReceived(ms)
  {
    if |ms| > 0 {
      var p := ms[..|ms| - 1];
      var c := Last(ms);
      assert Separated(p) && WellFormed(p);
      SumIsPointCount(p);
      SpanSize(c);
      forall x | x in Points(p)
        ensures x !in Span(c)
      {
        PointsMember(p, x);
        var i :| 0 <= i < |p| && p[i].start <= x <= p[i].end;
        assert ms[i] == p[i];
      }
      assert Points(p) * Span(c) == {};
    }
  }

  /** `bytes_received` is the number of distinct bytes the chunks cover,
      provided no chunk range is inverted. */
  lemma BytesReceivedIsUnionSize(keys: set<ByteRange>)
    requires forall r :: r in keys ==> r.start <= r.end
    ensures BytesReceived(CalculateReceivedRanges(keys)) == |Union(keys)|
  {
    ReceivedRangesShape(keys);
    ReceivedRangesWellFormed(keys);
    SumIsPointCount(CalculateReceivedRanges(keys));
  }

  /** The bytes `[0, n)`. */
  function Prefix(n: nat): (p: set<nat>)
    ensures forall x: nat :: x in p <==> x < n
  {
    if n == 0 then {} else Span(ByteRange(0, n - 1))
  }

  lemma PrefixSize(n: nat)
    ensures |Prefix(n)| == n
  {
    if n > 0 {
      SpanSize(ByteRange(0, n - 1));
    }
  }

  /** With well-formed ranges the completion test means that every byte in
      `[0, total)` has been received, and conversely. */
  lemma CompletionIffAllBytesReceived(keys: set<ByteRange>, total: nat)
    requires forall r :: r in keys ==> r.start <= r.end && r.end < total
    ensures BytesReceived(CalculateReceivedRanges(keys)) == total <==> Union(keys) == Prefix(total)
  {
    BytesReceivedIsUnionSize(keys);
    PrefixSize(total);
    UnionBelow(keys, total);
    assert Union(keys) <= Prefix(total);
    if |Union(keys)| == total {
      assert |Prefix(total) - Union(keys)| == 0;
      assert Prefix(total) - Union(keys) == {};
    }
  }

  /** An inverted range is counted with a negative length: `[11, 5]`
      alone counts as `-5` received bytes. */
  lemma InvertedRangeCountsNegative()
    ensures CalculateReceivedRanges({ByteRange(11, 5)}) == [ByteRange(11, 5)]
    ensures BytesReceived(CalculateReceivedRanges({ByteRange(11, 5)})) == -5
  {
    SortIsOrderIndependent([ByteRange(11, 5)], {ByteRange(11, 5)});
  }

  /** An inverted range stalls completion while every byte is present:
      chunks `[0, 9]` and `[11, 5]` cover every byte of `[0, 10)`, yet
      `bytes_received` counts the second one as `-5` and comes to 5, not
      the 10 that `total_bytes` is. */
  lemma InvertedRangeStallsCompletion()
    ensures var keys := {ByteRange(0, 9), ByteRange(11, 5)};
      Union(keys) == Prefix(10) && BytesReceived(CalculateReceivedRanges(keys)) == 5
  {
    var keys := {ByteRange(0, 9), ByteRange(11, 5)};
    var listing := [ByteRange(0, 9), ByteRange(11, 5)];
    SortIsOrderIndependent(listing, keys);
    assert Merge(listing[..1]) == [ByteRange(0, 9)];
    forall x: nat
      ensures x in Union(keys) <==> x < 10
    {
      if x < 10 {
        assert ByteRange(0, 9) in keys && Covers(ByteRange(0, 9), x);
      }
    }
  }

  /** A further chunk `[10, 10]` bridges the inverted range into the merge:
      the three chunks merge to `[0, 10]`, 11 bytes. */
  lemma BridgedInvertedRangeMerges()
    ensures var keys := {ByteRange(0, 9), ByteRange(10, 10), ByteRange(11, 5)};
      CalculateReceivedRanges(keys) == [ByteRange(0, 10)] && BytesReceived(CalculateReceivedRanges(keys)) == 11
  {
    var keys := {ByteRange(0, 9), ByteRange(10, 10), ByteRange(11, 5)};
    var listing := [ByteRange(0, 9), ByteRange(10, 10), ByteRange(11, 5)];
    SortIsOrderIndependent(listing, keys);
    assert listing[..2][..1] == listing[..1];
    assert Merge(listing[..1]) == [ByteRange(0, 9)];
    assert Merge(listing[..2]) == [ByteRange(0, 10)];
  }
}
