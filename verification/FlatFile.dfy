/** The file a user sees: a flat sequence of bytes with the POSIX meaning of pwrite, ftruncate and pread. */
module FlatFile {
  import opened Bytes

  /** pwrite: zero-extend up to the offset if need be, then overwrite; nothing happens for no bytes. */
  function PWrite(f: bytes, off: nat, d: bytes): (r: bytes)
    ensures d == [] ==> r == f
    ensures d != [] ==> |r| == Max(|f|, off + |d|)
    ensures d != [] ==> forall j :: 0 <= j < |r| ==>
              r[j] == if off <= j < off + |d| then d[j - off] else At(f, j)
  {
    if d == [] then f
    else seq<byte>(Max(|f|, off + |d|), (j: nat) => if off <= j < off + |d| then d[j - off] else At(f, j))
  }

  /** ftruncate: cut off, or extend with zeros. */
  function FTruncate(f: bytes, n: nat): (r: bytes)
    ensures |r| == n
    ensures forall j :: 0 <= j < n ==> r[j] == At(f, j)
  {
    seq<byte>(n, (j: nat) => At(f, j))
  }

  /** pread: what there is of the n bytes from `off` on. */
  function PRead(f: bytes, off: nat, n: nat): bytes {
    f[Min(off, |f|)..Min(off + n, |f|)]
  }

  /** The same read with the missing bytes given as zeros. */
  function ReadPadded(f: bytes, off: nat, n: nat): (r: bytes)
    ensures |r| == n
    ensures forall j :: 0 <= j < n ==> r[j] == At(f, off + j)
  {
    seq<byte>(n, (j: nat) => At(f, off + j))
  }

  /** Two adjacent writes are one write. */
  lemma PWriteConcat(f: bytes, off: nat, d: bytes, e: bytes)
    ensures PWrite(PWrite(f, off, d), off + |d|, e) == PWrite(f, off, d + e)
  {
    hide PWrite;
    if d == [] {
      assert d + e == e;
    } else if e == [] {
      assert d + e == d;
    } else {
      var r := PWrite(PWrite(f, off, d), off + |d|, e);
      var w := PWrite(f, off, d + e);
      assert |r| == |w|;
      forall j | 0 <= j < |r|
        ensures r[j] == w[j]
      {
      }
    }
  }

  /** What was written is read back, and nothing else in the file has changed. */
  lemma ReadAfterWrite(f: bytes, off: nat, d: bytes)
    requires d != []
    ensures PRead(PWrite(f, off, d), off, |d|) == d
    ensures forall p: nat, n: nat :: p + n <= off || off + |d| <= p ==>
              ReadPadded(PWrite(f, off, d), p, n) == ReadPadded(f, p, n)
  {
    assert PRead(PWrite(f, off, d), off, |d|) == d;
  }

  lemma WrittenIsRead(f: bytes, at: nat, d: bytes, off: nat, n: nat)
    requires d != [] && at <= off && off + n <= at + |d|
    ensures ReadPadded(PWrite(f, at, d), off, n) == d[off - at..off - at + n]
  {
  }

  /** Shrinking and growing again leaves zeros in the regrown range. */
  lemma RegrownIsZero(f: bytes, n: nat, m: nat, off: nat, k: nat)
    requires n <= off && off + k <= m
    ensures PRead(FTruncate(FTruncate(f, n), m), off, k) == Zeros(k)
  {
  }

  /** Padded and plain reads agree exactly when the range lies inside the file (or is empty). */
  lemma PaddedIsPlain(f: bytes, off: nat, n: nat)
    ensures ReadPadded(f, off, n) == PRead(f, off, n) <==> n == 0 || off + n <= |f|
  {
    if n > 0 && off + n > |f| {
      assert |PRead(f, off, n)| < n;
    }
  }
}
