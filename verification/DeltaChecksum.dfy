/** The 32-bit big-endian checksum of a buffer (ext/fossildelta.c:197-257). */
module DeltaChecksum {
  import opened Bytes

  /** Four numbers weighted as the bytes of a big-endian word. */
  function Combine(s0: nat, s1: nat, s2: nat, s3: nat): nat {
    0x100_0000 * s0 + 0x1_0000 * s1 + 0x100 * s2 + s3
  }

  /** The first four bytes as a big-endian number, a shorter buffer being padded with zeros. */
  function Word(z: bytes): nat {
    Combine(At(z, 0), At(z, 1), At(z, 2), At(z, 3))
  }

  /** The exact sum of all words of the zero-padded buffer. */
  function WordSum(z: bytes): nat {
    if |z| <= 4 then Word(z) else Word(z) + WordSum(z[4..])
  }

  /** What the program calls the checksum: the sum of the words modulo 2^32. */
  function Checksum(z: bytes): (c: nat)
    ensures c < 0x1_0000_0000
  {
    U32(WordSum(z))
  }

  /** The weight of byte `k` inside its word. */
  function Weight(k: nat): nat {
    match k % 4
    case 0 => 0x100_0000
    case 1 => 0x1_0000
    case 2 => 0x100
    case _ => 1
  }

  /** The first `n` bytes, each times its weight. */
  function ByteSum(z: bytes, n: nat): nat
    requires n <= |z|
  {
    if n == 0 then 0 else ByteSum(z, n - 1) + Weight(n - 1) * z[n - 1]
  }

  /** Byte by byte: the checksum is the sum of all bytes times their weights, modulo 2^32. */
  lemma ChecksumByByte(z: bytes)
    ensures Checksum(z) == ByteSum(z, |z|) % 0x1_0000_0000
  {
    WordSumByByte(z, 0);
    assert z[0..] == z;
  }

  lemma {:induction false} WordSumByByte(z: bytes, p: nat)
    requires p % 4 == 0 && p <= |z|
    ensures ByteSum(z, p) + WordSum(z[p..]) == ByteSum(z, |z|)
    decreases |z| - p
  {
    hide ByteSum, WordSum, Word;
    if |z| - p >= 4 {
      WordStep(z, p);
      WholeWord(z, p);
      WordSumByByte(z, p + 4);
    } else {
      PartOfWord(z, p);
    }
  }

  lemma WholeWord(z: bytes, p: nat)
    requires p % 4 == 0 && p + 4 <= |z|
    ensures ByteSum(z, p + 4) == ByteSum(z, p) + Word(z[p..])
  {
    hide ByteSum, Word, Weight, WordSum;
    WordStep(z, p);
    BytesOfWord(z, p, 4);
  }

  lemma PartOfWord(z: bytes, p: nat)
    requires p % 4 == 0 && p <= |z| < p + 4
    ensures ByteSum(z, |z|) == ByteSum(z, p) + WordSum(z[p..])
  {
    hide ByteSum, Word, Weight, WordSum;
    TailWord(z, p);
    BytesOfWord(z, p, |z| - p);
    assert p + (|z| - p) == |z|;
  }

  lemma BytesOfWord(z: bytes, p: nat, k: nat)
    requires p % 4 == 0 && k <= 4 && p + k <= |z|
    ensures ByteSum(z, p + k) == ByteSum(z, p) + (if k > 0 then 0x100_0000 * (z[p] as int) else 0)
                               + (if k > 1 then 0x1_0000 * (z[p + 1] as int) else 0)
                               + (if k > 2 then 0x100 * (z[p + 2] as int) else 0)
                               + (if k > 3 then z[p + 3] as int else 0)
  {
    Weights(p);
    hide Weight, ByteSum;
    if k > 0 {
      ByteStep(z, p + k);
      BytesOfWord(z, p, k - 1);
    }
  }

  lemma ByteStep(z: bytes, n: nat)
    requires 0 < n <= |z|
    ensures ByteSum(z, n) == ByteSum(z, n - 1) + Weight(n - 1) * z[n - 1]
  {
  }

  lemma Weights(p: nat)
    requires p % 4 == 0
    ensures Weight(p) == 0x100_0000 && Weight(p + 1) == 0x1_0000 && Weight(p + 2) == 0x100 && Weight(p + 3) == 1
  {
  }

  /** Padding the buffer with zeros up to the next multiple of four changes nothing. */
  lemma {:induction false} PaddingIsFree(z: bytes, k: nat)
    requires |z| + k <= (|z| + 3) / 4 * 4
    ensures WordSum(z + Zeros(k)) == WordSum(z)
    decreases |z|
  {
    var w := z + Zeros(k);
    if |z| > 4 {
      PaddingIsFree(z[4..], k);
      assert w[4..] == z[4..] + Zeros(k);
      SameWord(z, w);
    } else {
      SameWord(z, w);
    }
  }

  lemma SameWord(z: bytes, w: bytes)
    requires forall j :: 0 <= j < 4 ==> At(z, j) == At(w, j)
    ensures Word(z) == Word(w)
  {
    assert At(z, 0) == At(w, 0) && At(z, 1) == At(w, 1) && At(z, 2) == At(w, 2) && At(z, 3) == At(w, 3);
  }

  lemma WordStep(z: bytes, p: nat)
    requires p + 4 <= |z|
    ensures WordSum(z[p..]) == Word(z[p..]) + WordSum(z[p + 4..])
    ensures Word(z[p..]) == Combine(z[p], z[p + 1], z[p + 2], z[p + 3])
  {
    var w := z[p..];
    assert w[0] == z[p] && w[1] == z[p + 1] && w[2] == z[p + 2] && w[3] == z[p + 3];
    assert w[4..] == z[p + 4..];
    WordSumStep(w);
  }

  lemma WordSumStep(w: bytes)
    requires |w| >= 4
    ensures WordSum(w) == Word(w) + WordSum(w[4..])
  {
    if |w| == 4 {
      assert w[4..] == [];
    }
  }

  /** Combining 32-bit partial sums gives the same 32-bit total as combining the exact ones. */
  lemma CombineWraps(s0: nat, s1: nat, s2: nat, s3: nat)
    ensures U32(U32(s3) + (U32(U32(s2) * 0x100) + U32(U32(s1) * 0x1_0000) + U32(U32(s0) * 0x100_0000)))
         == U32(Combine(s0, s1, s2, s3))
  {
    var (x0, x1, x2) := (s0 * 0x100_0000, s1 * 0x1_0000, s2 * 0x100);
    U32Mul(s2, 0x100);
    U32Mul(s1, 0x1_0000);
    U32Mul(s0, 0x100_0000);
    U32Add(s3, U32(x2) + U32(x1) + U32(x0));
    U32Add(x2, s3 + U32(x1) + U32(x0));
    U32Add(x1, s3 + x2 + U32(x0));
    U32Add(x0, s3 + x2 + x1);
  }

  /** The switch at the end: the last one to three bytes, falling through from case to case. */
  method AddTail(z: bytes, p: nat, sum0: nat) returns (sum: nat)
    requires p <= |z| < p + 4 && sum0 < 0x1_0000_0000
    ensures sum == U32(sum0 + WordSum(z[p..]))
  {
    hide U32, WordSum, Combine;
    var z0: nat, z1: nat, z2: nat := At(z, p), At(z, p + 1), At(z, p + 2);
    TailWord(z, p);
    U32Small(sum0);
    sum := sum0;
    ghost var exact := sum0;
    if |z| - p == 3 {
      U32Add(exact, z2 * 0x100);
      sum, exact := U32(sum + z2 * 0x100), exact + z2 * 0x100;
    }
    if |z| - p >= 2 {
      U32Add(exact, z1 * 0x1_0000);
      sum, exact := U32(sum + z1 * 0x1_0000), exact + z1 * 0x1_0000;
    }
    if |z| - p >= 1 {
      U32Add(exact, z0 * 0x100_0000);
      sum, exact := U32(sum + z0 * 0x100_0000), exact + z0 * 0x100_0000;
    }
  }

  lemma TailWord(z: bytes, p: nat)
    requires p <= |z| < p + 4
    ensures WordSum(z[p..]) == At(z, p + 2) * 0x100 + At(z, p + 1) * 0x1_0000 + At(z, p) * 0x100_0000
  {
    var w := z[p..];
    assert At(w, 0) == At(z, p) && At(w, 1) == At(z, p + 1) && At(w, 2) == At(z, p + 2) && At(w, 3) == 0;
  }

  /** The loop over byte-swapped words. */
  method ChecksumByWord(z: bytes) returns (sum: nat)
    ensures sum == Checksum(z)
  {
    hide U32, WordSum, Word;
    sum := 0;
    var p := 0;
    assert z[0..] == z;
    var end := |z| - |z| % 4;
    while p < end
      invariant 0 <= p <= end && p % 4 == 0 && sum < 0x1_0000_0000
      invariant Checksum(z) == U32(sum + WordSum(z[p..]))
    {
      WordStep(z, p);
      U32Add(sum + Word(z[p..]), WordSum(z[p + 4..]));
      sum := U32(sum + Word(z[p..]));
      p := p + 4;
    }
    sum := AddTail(z, p, sum);
  }

  lemma CombineZero()
    ensures Combine(0, 0, 0, 0) == 0
  {
  }

  lemma CombineAdd(s0: nat, s1: nat, s2: nat, s3: nat, t0: nat, t1: nat, t2: nat, t3: nat)
    ensures Combine(s0, s1, s2, s3) + Combine(t0, t1, t2, t3) == Combine(s0 + t0, s1 + t1, s2 + t2, s3 + t3)
  {
  }

  /** Every fourth byte of the 16 bytes at `p`. */
  function Stripe(z: bytes, p: nat): nat
    requires p + 12 < |z|
  {
    z[p] as nat + z[p + 4] as nat + z[p + 8] as nat + z[p + 12] as nat
  }

  lemma BlockStep(z: bytes, p: nat)
    requires p + 16 <= |z|
    ensures WordSum(z[p..]) == Combine(Stripe(z, p), Stripe(z, p + 1), Stripe(z, p + 2), Stripe(z, p + 3))
                             + WordSum(z[p + 16..])
  {
    WordStep(z, p);
    WordStep(z, p + 4);
    WordStep(z, p + 8);
    WordStep(z, p + 12);
  }

  lemma AddStripes(s0: nat, s1: nat, s2: nat, s3: nat, t0: nat, t1: nat, t2: nat, t3: nat)
    ensures U32(U32(s0) + t0) == U32(s0 + t0) && U32(U32(s1) + t1) == U32(s1 + t1)
    ensures U32(U32(s2) + t2) == U32(s2 + t2) && U32(U32(s3) + t3) == U32(s3 + t3)
  {
    U32Add(s0, t0);
    U32Add(s1, t1);
    U32Add(s2, t2);
    U32Add(s3, t3);
  }

  /** The portable loops: four partial sums, first sixteen and then four bytes at a time. */
  method ChecksumStriped(z: bytes) returns (sum: nat)
    ensures sum == Checksum(z)
  {
    hide U32, WordSum, Combine, Stripe, Word;
    var sum0, sum1, sum2 := 0, 0, 0;
    sum := 0;
    U32Small(0);
    CombineZero();
    assert z[0..] == z;
    var p: nat, n: nat := 0, |z|;
    ghost var s0: nat, s1: nat, s2: nat, s3: nat := 0, 0, 0, 0;
    while n >= 16
      invariant p + n == |z|
      invariant sum0 == U32(s0) && sum1 == U32(s1) && sum2 == U32(s2) && sum == U32(s3)
      invariant WordSum(z) == Combine(s0, s1, s2, s3) + WordSum(z[p..])
    {
      BlockStep(z, p);
      var t0, t1, t2, t3 := Stripe(z, p), Stripe(z, p + 1), Stripe(z, p + 2), Stripe(z, p + 3);
      AddStripes(s0, s1, s2, s3, t0, t1, t2, t3);
      CombineAdd(s0, s1, s2, s3, t0, t1, t2, t3);
      sum0, sum1, sum2, sum := U32(sum0 + t0), U32(sum1 + t1), U32(sum2 + t2), U32(sum + t3);
      s0, s1, s2, s3 := s0 + t0, s1 + t1, s2 + t2, s3 + t3;
      p, n := p + 16, n - 16;
    }
    while n >= 4
      invariant p + n == |z|
      invariant sum0 == U32(s0) && sum1 == U32(s1) && sum2 == U32(s2) && sum == U32(s3)
      invariant WordSum(z) == Combine(s0, s1, s2, s3) + WordSum(z[p..])
    {
      WordStep(z, p);
      var t0: nat, t1: nat, t2: nat, t3: nat := z[p], z[p + 1], z[p + 2], z[p + 3];
      AddStripes(s0, s1, s2, s3, t0, t1, t2, t3);
      CombineAdd(s0, s1, s2, s3, t0, t1, t2, t3);
      sum0, sum1, sum2, sum := U32(sum0 + t0), U32(sum1 + t1), U32(sum2 + t2), U32(sum + t3);
      s0, s1, s2, s3 := s0 + t0, s1 + t1, s2 + t2, s3 + t3;
      p, n := p + 4, n - 4;
    }
    CombineWraps(s0, s1, s2, s3);
    U32Add(Combine(s0, s1, s2, s3), WordSum(z[p..]));
    sum := U32(sum + (U32(sum2 * 0x100) + U32(sum1 * 0x1_0000) + U32(sum0 * 0x100_0000)));
    sum := AddTail(z, p, sum);
  }
}
