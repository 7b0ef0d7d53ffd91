/** Byte strings as the service handles them: Python `bytes` values, their
    arithmetic sum, big-endian integer conversion and the effect of a
    seek-then-write on a file's contents. */
module Bytes {

  /** One element of a Python `bytes` value. */
  type byte = b: int | 0 <= b < 256

  function Min(a: int, b: int): int { if a <= b then a else b }
  function Max(a: int, b: int): int { if a >= b then a else b }

  function Pow256(n: nat): (p: nat)
    ensures p > 0
  {
    if n == 0 then 1 else 256 * Pow256(n - 1)
  }

  /** `sum(data)`: the arithmetic sum of all bytes. */
  function Sum(s: seq<byte>): nat
  {
    if |s| == 0 then 0 else Sum(s[..|s| - 1]) + s[|s| - 1]
  }

  lemma {:induction false} SumAppend(a: seq<byte>, b: seq<byte>)
    ensures Sum(a + b) == Sum(a) + Sum(b)
    decreases |b|
  {
    if |b| == 0 {
      assert a + b == a;
    } else {
      assert (a + b)[..|a + b| - 1] == a + b[..|b| - 1];
      SumAppend(a, b[..|b| - 1]);
    }
  }

  /** Replacing one byte changes the sum by exactly the difference. */
  lemma {:induction false} SumUpdate(s: seq<byte>, i: nat, b: byte)
    requires i < |s|
    ensures Sum(s[i := b]) == Sum(s) - s[i] + b
  {
    var t := s[i := b];
    assert s == s[..i] + [s[i]] + s[i + 1..];
    assert t == s[..i] + [b] + s[i + 1..];
    SumAppend(s[..i] + [s[i]], s[i + 1..]);
    SumAppend(s[..i], [s[i]]);
    SumAppend(s[..i] + [b], s[i + 1..]);
    SumAppend(s[..i], [b]);
    assert Sum([s[i]]) == s[i] by { assert [s[i]][..0] == []; }
    assert Sum([b]) == b by { assert [b][..0] == []; }
  }

  /** `int.from_bytes(s, byteorder='big')`. */
  function FromBigEndian(s: seq<byte>): (v: nat)
    ensures v < Pow256(|s|)
  {
    if |s| == 0 then 0 else FromBigEndian(s[..|s| - 1]) * 256 + s[|s| - 1]
  }

  /** `v.to_bytes(n, byteorder='big')` for a value that fits in `n` bytes. */
  function ToBigEndian(v: nat, n: nat): (s: seq<byte>)
    requires v < Pow256(n)
    ensures |s| == n
  {
    if n == 0 then [] else ToBigEndian(v / 256, n - 1) + [v % 256]
  }

  /** Decoding what was encoded gives the value back. */
  lemma {:induction false} FromToBigEndian(v: nat, n: nat)
    requires v < Pow256(n)
    ensures FromBigEndian(ToBigEndian(v, n)) == v
  {
    if n > 0 {
      var s := ToBigEndian(v, n);
      assert s[..n - 1] == ToBigEndian(v / 256, n - 1);
      FromToBigEndian(v / 256, n - 1);
    }
  }

  /** Encoding what was decoded gives the bytes back. */
  lemma {:induction false} ToFromBigEndian(s: seq<byte>)
    ensures ToBigEndian(FromBigEndian(s), |s|) == s
  {
    if |s| > 0 {
      var p := s[..|s| - 1];
      ToFromBigEndian(p);
      assert s == p + [s[|s| - 1]];
    }
  }

  /** Concatenation of a stream of blocks. */
  function Concat(blocks: seq<seq<byte>>): seq<byte>
  {
    if |blocks| == 0 then [] else Concat(blocks[..|blocks| - 1]) + blocks[|blocks| - 1]
  }

  lemma ConcatAppend(blocks: seq<seq<byte>>, b: seq<byte>)
    ensures Concat(blocks + [b]) == Concat(blocks) + b
  {
    assert (blocks + [b])[..|blocks|] == blocks;
  }

  lemma {:induction false} ConcatPrepend(b: seq<byte>, blocks: seq<seq<byte>>)
    ensures Concat([b] + blocks) == b + Concat(blocks)
    decreases |blocks|
  {
    if |blocks| > 0 {
      var p := blocks[..|blocks| - 1];
      assert ([b] + blocks)[..|blocks|] == [b] + p;
      ConcatPrepend(b, p);
    }
  }

  /** The bytes of `file` at positions `[from, to)` that exist: what a
      reader positioned at `from` has read on reaching `to`. */
  function Clip(file: seq<byte>, from: nat, to: nat): seq<byte>
    requires from <= to
  {
    file[Min(from, |file|)..Min(to, |file|)]
  }

  /** A block read at position `to` extends what was read from `from`. */
  lemma ClipStep(file: seq<byte>, from: nat, to: nat, block: seq<byte>)
    requires from <= to < |file| && to + |block| <= |file|
    requires block == file[to..to + |block|]
    ensures Clip(file, from, to + |block|) == Clip(file, from, to) + block
  {
    assert file[from..to + |block|] == file[from..to] + block;
  }

  function Zeros(n: nat): (z: seq<byte>)
    ensures |z| == n && forall i :: 0 <= i < n ==> z[i] == 0
  {
    seq(n, _ => 0)
  }

  /** The file contents after `f.seek(offset); f.write(data)`: the bytes at
      `[offset, offset + |data|)` are replaced or appended, a hole between the
      old end and `offset` reads as zeros, and writing nothing changes
      nothing (seeking alone does not extend a file). */
  function WriteAt(file: seq<byte>, offset: nat, data: seq<byte>): (r: seq<byte>)
    ensures |data| == 0 ==> r == file
    ensures |data| > 0 ==> |r| == Max(|file|, offset + |data|)
    ensures forall i :: offset <= i < offset + |data| ==> i < |r| && r[i] == data[i - offset]
    ensures forall i :: 0 <= i < |r| && !(offset <= i < offset + |data|) ==>
              r[i] == (if i < |file| then file[i] else 0)
  {
    if |data| == 0 then file
    else if offset <= |file| then
      file[..offset] + data + (if offset + |data| < |file| then file[offset + |data|..] else [])
    else
      file + Zeros(offset - |file|) + data
  }
}
