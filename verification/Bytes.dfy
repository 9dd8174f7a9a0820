/** Bytes, C integer widths and the NUL-terminated reads shared by every component. */
module Bytes {

  type byte = x: int | 0 <= x < 256

  type bytes = seq<byte>

  /** An `unsigned short`: every sum is kept modulo 2^16. */
  function U16(x: int): (r: nat)
    ensures r < 0x1_0000
  {
    x % 0x1_0000
  }

  /** An `unsigned int`: every sum is kept modulo 2^32. */
  function U32(x: int): (r: nat)
    ensures r < 0x1_0000_0000
  {
    x % 0x1_0000_0000
  }

  /** Reducing early or late makes no difference. */
  lemma U16Add(x: int, y: int)
    ensures U16(U16(x) + y) == U16(x + y)
  {
  }

  lemma U16Sub(x: int, y: int, k: int)
    requires 0 <= k <= 16
    ensures U16(x - k * U16(y)) == U16(x - k * y)
  {
    var q := y / 0x1_0000;
    assert U16(y) == y - 0x1_0000 * q;
    assert k * U16(y) == k * y - 0x1_0000 * (k * q);
    assert x - k * U16(y) == x - k * y + 0x1_0000 * (k * q);
  }

  lemma U32Add(x: int, y: int)
    ensures U32(U32(x) + y) == U32(x + y)
  {
  }

  lemma U32Small(x: nat)
    requires x < 0x1_0000_0000
    ensures U32(x) == x
  {
  }

  /** Whole multiples of 2^32 vanish. */
  lemma U32Shift(x: int, k: int)
    ensures U32(x - 0x1_0000_0000 * k) == U32(x)
  {
  }

  lemma U32Mul(x: int, m: int)
    ensures U32(U32(x) * m) == U32(x * m)
  {
    var q := x / 0x1_0000_0000;
    assert U32(x) == x - 0x1_0000_0000 * q;
    assert U32(x) * m == x * m - 0x1_0000_0000 * (q * m);
    U32Shift(x * m, q * m);
  }

  /** The value of a 32-bit pattern read as a (two's complement) `int`. */
  function AsInt32(v: nat): int
    requires v < 0x1_0000_0000
  {
    if v < 0x8000_0000 then v else v - 0x1_0000_0000
  }

  /** Reading a NUL-terminated buffer: the byte behind the last one is 0. */
  function At(z: bytes, p: nat): byte {
    if p < |z| then z[p] else 0
  }

  function Zeros(n: nat): (r: bytes)
    ensures |r| == n
    ensures forall j :: 0 <= j < n ==> r[j] == 0
  {
    seq(n, _ => 0)
  }

  function Min(x: nat, y: nat): nat {
    if x <= y then x else y
  }

  function Max(x: nat, y: nat): nat {
    if x <= y then y else x
  }

  lemma SplitAt<T>(s: seq<T>, a: nat, b: nat, c: nat)
    requires a <= b <= c <= |s|
    ensures s[a..c] == s[a..b] + s[b..c]
  {
  }

  lemma Assoc<T>(a: seq<T>, b: seq<T>, c: seq<T>)
    ensures (a + b) + c == a + (b + c)
  {
  }

  /** memcpy into an output buffer. */
  method CopyBytes(s: bytes, zOut: array<byte>, n: nat)
    requires n + |s| <= zOut.Length
    modifies zOut
    ensures zOut[..n + |s|] == old(zOut[..n]) + s
    ensures zOut[n + |s|..] == old(zOut[n + |s|..])
  {
    forall k | 0 <= k < |s| {
      zOut[n + k] := s[k];
    }
  }
}
