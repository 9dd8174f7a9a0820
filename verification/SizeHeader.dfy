/** The SQL functions compress and uncompress: a size header around a zlib stream (ext/compress.c:45-110). */
module SizeHeader {
  import opened Wrappers
  import opened Bytes

  /** zlib as seen from here: inflate is given the capacity of its output buffer, as uncompress() is. */
  datatype Zlib = Zlib(deflate: bytes -> bytes, inflate: (bytes, nat) -> Option<bytes>)

  /** The assumption on zlib: inflating what was deflated gives it back, provided the buffer is large enough. */
  ghost predicate Inverse(zlib: Zlib) {
    forall x: bytes, room: nat :: |x| <= room ==> zlib.inflate(zlib.deflate(x), room) == Some(x)
  }

  /** The size in groups of seven bits, most significant first, without leading zero groups. */
  function Groups(n: nat): (g: bytes)
    ensures |g| > 0
    ensures forall k :: 0 <= k < |g| ==> g[k] < 128
    decreases n
  {
    if n < 128 then [n] else Groups(n / 128) + [n % 128]
  }

  /** The header: the groups, the last one marked by its top bit. */
  function Header(n: nat): (h: bytes)
    ensures |h| == |Groups(n)|
  {
    var g := Groups(n);
    g[..|g| - 1] + [g[|g| - 1] + 128]
  }

  function CompressSpec(zlib: Zlib, x: bytes): bytes {
    Header(|x|) + zlib.deflate(x)
  }

  /** uncompress reads at most five bytes of header, up to the marked one. */
  function ReadHeader(z: bytes, i: nat, n: nat): (r: (nat, nat))
    requires i <= |z|
    ensures i <= r.1 <= |z|
    decreases |z| - i
  {
    if i >= |z| || i >= 5 then (n, i)
    else if z[i] >= 128 then (n * 128 + z[i] % 128, i + 1)
    else ReadHeader(z, i + 1, n * 128 + z[i] % 128)
  }

  function UncompressSpec(zlib: Zlib, z: bytes): Option<bytes> {
    var (n, i) := ReadHeader(z, 0, 0);
    zlib.inflate(z[i..], n)
  }

  // ---------- The header reads back ----------

  function Pow128(k: nat): (r: nat)
    ensures r > 0
  {
    if k == 0 then 1 else 128 * Pow128(k - 1)
  }

  lemma {:induction false} GroupsLength(n: nat, k: nat)
    requires k > 0 && n < Pow128(k)
    ensures |Groups(n)| <= k
    decreases k
  {
    if n >= 128 {
      assert Pow128(k) == 128 * Pow128(k - 1);
      assert k > 1 by {
        assert Pow128(0) == 1;
      }
      GroupsLength(n / 128, k - 1);
    }
  }

  /** Every 32-bit size needs at most five groups. */
  lemma SizeFitsFive(n: nat)
    requires n < 0x1_0000_0000
    ensures n < Pow128(5) && |Groups(n)| <= 5
  {
    assert Pow128(2) == 0x4000;
    assert Pow128(4) == 0x1000_0000;
    assert Pow128(5) == 0x8_0000_0000;
    GroupsLength(n, 5);
  }

  lemma {:induction false} ReadUnmarked(z: bytes, n: nat)
    requires |Groups(n)| <= 4 && |Groups(n)| <= |z| && z[..|Groups(n)|] == Groups(n)
    ensures ReadHeader(z, 0, 0) == ReadHeader(z, |Groups(n)|, n)
    decreases n
  {
    var g := Groups(n);
    var last := |g| - 1;
    assert z[last] == z[..|g|][last] == g[last];
    if n >= 128 {
      assert z[..last] == z[..|g|][..last] == Groups(n / 128);
      ReadUnmarked(z, n / 128);
      assert n / 128 * 128 + n % 128 == n;
    }
  }

  /** The size header decodes to its value and its own length, whatever follows. */
  lemma HeaderRoundTrip(n: nat, rest: bytes)
    requires n < 0x1_0000_0000
    ensures ReadHeader(Header(n) + rest, 0, 0) == (n, |Header(n)|)
  {
    SizeFitsFive(n);
    var z := Header(n) + rest;
    var q := n / 128;
    if n >= 128 {
      var g := Groups(q);
      assert Groups(n)[..|g|] == g;
      assert z[..|g|] == g;
      ReadUnmarked(z, q);
      assert q * 128 + n % 128 == n;
    }
  }

  /** The number that the low seven bits of some bytes stand for, most significant first. */
  function Base128(s: bytes): nat {
    if s == [] then 0 else 128 * Base128(s[..|s| - 1]) + s[|s| - 1] % 128
  }

  /** The header stands for the size, its last byte is the only one with the top bit, and it has no leading zero. */
  lemma HeaderIs(n: nat)
    ensures var h := Header(n);
      && h != [] && Base128(h) == n && h[|h| - 1] >= 128
      && (forall k :: 0 <= k < |h| - 1 ==> h[k] < 128) && (|h| > 1 ==> h[0] != 0)
  {
    hide Base128, Groups;
    GroupsAre(n);
    var g, h := Groups(n), Header(n);
    var last := |g| - 1;
    Base128Snoc(g[..last], g[last]);
    Base128Snoc(g[..last], g[last] + 128);
    assert g == g[..last] + [g[last]];
    MarkIsDropped(g[last]);
  }

  lemma MarkIsDropped(c: byte)
    requires c < 128
    ensures (c + 128) % 128 == c % 128 == c
  {
  }

  lemma Base128Snoc(s: bytes, c: byte)
    ensures Base128(s + [c]) == 128 * Base128(s) + c % 128
  {
    assert (s + [c])[..|s|] == s;
  }

  lemma {:induction false} GroupsAre(n: nat)
    ensures Base128(Groups(n)) == n && (n > 0 || |Groups(n)| > 1 ==> Groups(n)[0] != 0)
    decreases n
  {
    if n >= 128 {
      GroupsAre(n / 128);
      assert Groups(n)[..|Groups(n)| - 1] == Groups(n / 128);
    } else {
      assert [n][..0] == [];
    }
  }

  /** What uncompress takes for the header of any blob: the bytes up to the first one with the top bit, but no more
    * than five; the size is what they stand for. */
  lemma ReadHeaderExactly(z: bytes)
    ensures var (n, i) := ReadHeader(z, 0, 0);
      && i <= 5 && n == Base128(z[..i]) && (forall k :: 0 <= k < i - 1 ==> z[k] < 128)
      && (i == |z| || i == 5 || (i > 0 && z[i - 1] >= 128))
  {
    assert z[..0] == [];
    ReadHeaderFrom(z, 0, 0);
  }

  lemma {:induction false} ReadHeaderFrom(z: bytes, i: nat, n: nat)
    requires i <= |z| && i <= 5 && n == Base128(z[..i]) && forall k :: 0 <= k < i ==> z[k] < 128
    ensures var (m, j) := ReadHeader(z, i, n);
      && j <= 5 && m == Base128(z[..j]) && (forall k :: 0 <= k < j - 1 ==> z[k] < 128)
      && (j == |z| || j == 5 || (j > 0 && z[j - 1] >= 128))
    decreases |z| - i
  {
    if i < |z| && i < 5 {
      assert z[..i + 1][..i] == z[..i];
      if z[i] < 128 {
        ReadHeaderFrom(z, i + 1, n * 128 + z[i] % 128);
      }
    }
  }

  /** uncompress undoes compress on every blob whose size is a 32-bit number. */
  lemma UncompressAfterCompress(zlib: Zlib, x: bytes)
    requires Inverse(zlib) && |x| < 0x1_0000_0000
    ensures UncompressSpec(zlib, CompressSpec(zlib, x)) == Some(x)
  {
    hide Header;
    var z := CompressSpec(zlib, x);
    HeaderRoundTrip(|x|, zlib.deflate(x));
    assert z[|Header(|x|)|..] == zlib.deflate(x);
  }

  // ---------- The loops ----------

  /** n >> 7k */
  function Shift7(n: nat, k: nat): nat {
    if k == 0 then n else Shift7(n / 128, k - 1)
  }

  /** Exactly k groups, leading zeros included. */
  function FixedGroups(n: nat, k: nat): (g: bytes)
    ensures |g| == k
  {
    if k == 0 then [] else FixedGroups(n / 128, k - 1) + [n % 128]
  }

  lemma {:induction false} FixedGroupsAt(n: nat, k: nat, i: nat)
    requires i < k
    ensures FixedGroups(n, k)[i] == Shift7(n, k - 1 - i) % 128
    decreases k
  {
    if i < k - 1 {
      FixedGroupsAt(n / 128, k - 1, i);
    }
  }

  /** Without its leading zero groups the fixed form is the variable one. */
  lemma {:induction false} FixedGroupsStrip(n: nat, k: nat)
    requires k > 0 && n < Pow128(k)
    ensures |Groups(n)| <= k
    ensures var skip := k - |Groups(n)|;
      && FixedGroups(n, k)[skip..] == Groups(n)
      && (forall j :: 0 <= j < skip ==> FixedGroups(n, k)[j] == 0)
      && (skip < k - 1 ==> FixedGroups(n, k)[skip] != 0)
    decreases k
  {
    GroupsLength(n, k);
    var f := FixedGroups(n / 128, k - 1);
    assert Pow128(k) == 128 * Pow128(k - 1);
    if n >= 128 {
      assert k > 1 by {
        assert Pow128(0) == 1;
      }
      FixedGroupsStrip(n / 128, k - 1);
      var skip := k - |Groups(n)|;
      assert (f + [n % 128])[skip..] == f[skip..] + [n % 128];
      if skip == k - 2 {
        assert f[skip..] == Groups(n / 128) == [n / 128];
        assert f[skip..][0] == n / 128;
      }
    } else {
      FixedGroupsZero(k - 1);
    }
  }

  lemma {:induction false} FixedGroupsZero(k: nat)
    ensures FixedGroups(0, k) == Zeros(k)
  {
    if k > 0 {
      FixedGroupsZero(k - 1);
    }
  }

  /** compressFunc: fill x[] from the right, skip leading zeros, copy, mark the last byte. */
  method Compress(zlib: Zlib, pIn: bytes) returns (blob: bytes)
    requires |pIn| < 0x1_0000_0000
    ensures blob == CompressSpec(zlib, pIn)
  {
    hide Groups, FixedGroups, Shift7;
    var nIn := |pIn|;
    SizeFitsFive(nIn);
    FixedGroupsStrip(nIn, 5);
    ghost var f, skip := FixedGroups(nIn, 5), 5 - |Groups(nIn)|;
    var x := new byte[8];
    var i := 4;
    while i >= 0
      invariant -1 <= i <= 4
      invariant forall k :: i < k <= 4 ==> x[k] == f[k]
    {
      FixedGroupsAt(nIn, 5, i);
      x[i] := Shift7(nIn, 4 - i) % 128;
      i := i - 1;
    }
    i := 0;
    while i < 4 && x[i] == 0
      invariant 0 <= i <= skip
    {
      i := i + 1;
    }
    assert i == skip;
    var pOut := new byte[5];
    var j := 0;
    while i <= 4
      invariant skip <= i <= 5 && j == i - skip
      invariant forall k :: 0 <= k <= 4 ==> x[k] == f[k]
      invariant forall k :: 0 <= k < j ==> pOut[k] == f[skip + k]
    {
      pOut[j] := x[i];
      i, j := i + 1, j + 1;
    }
    assert pOut[..j] == Groups(nIn);
    pOut[j - 1] := pOut[j - 1] + 128;
    assert pOut[..j] == Header(nIn);
    blob := pOut[..j] + zlib.deflate(pIn);
  }

  /** uncompressFunc */
  method Uncompress(zlib: Zlib, pIn: bytes) returns (r: Option<bytes>)
    ensures r == UncompressSpec(zlib, pIn)
  {
    var nOut: nat := 0;
    var i := 0;
    while i < |pIn| && i < 5
      invariant 0 <= i <= |pIn|
      invariant ReadHeader(pIn, i, nOut) == ReadHeader(pIn, 0, 0)
    {
      nOut := nOut * 128 + pIn[i] as nat % 128;
      if pIn[i] >= 128 {
        i := i + 1;
        break;
      }
      i := i + 1;
    }
    r := zlib.inflate(pIn[i..], nOut);
  }
}
