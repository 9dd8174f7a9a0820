/** The base-64 integers of the delta format (ext/fossildelta.c:134-189). */
module Base64 {
  import opened Bytes

  /** The 64 digits in the order of their values. */
  const ALPHABET: string := "0123456789" + "ABCDEFGHIJKLMNOPQRSTUVWXYZ" + "_" + "abcdefghijklmnopqrstuvwxyz" + "~"

  /** The digits 0-9, A-Z, _, a-z, ~ in this order. */
  function DigitChar(d: nat): byte
    requires d < 64
  {
    if d < 10 then 48 + d
    else if d < 36 then 55 + d
    else if d == 36 then 95
    else if d < 63 then 60 + d
    else 126
  }

  /** The value of a digit, -1 for any other byte; only the low seven bits are looked at. */
  function DigitValue(b: byte): (v: int)
    ensures -1 <= v < 64
  {
    var c := b % 128;
    if 48 <= c < 58 then c - 48
    else if 65 <= c < 91 then c - 55
    else if c == 95 then 36
    else if 97 <= c < 123 then c - 60
    else if c == 126 then 63
    else -1
  }

  lemma DigitInverse(d: nat)
    requires d < 64
    ensures DigitValue(DigitChar(d)) == d
  {
  }

  /** The characters of `s` follow each other in ASCII. */
  predicate Consecutive(s: string) {
    forall j :: 0 <= j < |s| ==> s[j] as int == s[0] as int + j
  }

  lemma Runs()
    ensures Consecutive("0123456789") && Consecutive("ABCDEFGHIJKLMNOPQRSTUVWXYZ")
    ensures Consecutive("abcdefghijklmnopqrstuvwxyz")
  {
  }

  lemma DigitCharIs(d: nat)
    requires d < 64
    ensures |ALPHABET| == 64 && DigitChar(d) == ALPHABET[d] as int
  {
    Runs();
  }

  /** The value of a byte is where its low seven bits stand in the alphabet, or -1 if they do not. */
  lemma DigitValueIs(b: byte)
    ensures |ALPHABET| == 64
    ensures forall d: nat :: d < 64 ==> (ALPHABET[d] as int == b % 128 <==> DigitValue(b) == d)
  {
    DigitCharIs(0);
    forall d: nat | d < 64
      ensures ALPHABET[d] as int == b % 128 <==> DigitValue(b) == d
    {
      DigitCharIs(d);
    }
  }

  /** The digits of a positive number, most significant first; none for 0. */
  function PositiveDigits(v: nat): bytes {
    if v == 0 then [] else PositiveDigits(v / 64) + [DigitChar(v % 64)]
  }

  function Digits(v: nat): (s: bytes)
    ensures |s| > 0
  {
    if v == 0 then [48] else PositiveDigits(v)
  }

  function Pow64(k: nat): (r: nat)
    ensures r > 0
  {
    if k == 0 then 1 else 64 * Pow64(k - 1)
  }

  /** A number below 64^k has at most k digits, one from 64^(k-1) on has at least k. */
  lemma {:induction false} DigitsLength(v: nat, k: nat)
    requires k > 0
    ensures v < Pow64(k) ==> |Digits(v)| <= k
    ensures Pow64(k - 1) <= v ==> |Digits(v)| >= k
    decreases k
  {
    assert Pow64(0) == 1 && Pow64(1) == 64;
    if v >= 64 {
      assert |Digits(v)| == |Digits(v / 64)| + 1;
      if k > 1 {
        assert Pow64(k) == 64 * Pow64(k - 1) && Pow64(k - 1) == 64 * Pow64(k - 2);
        DigitsLength(v / 64, k - 1);
      }
    } else if v > 0 {
      assert PositiveDigits(v / 64) == [];
      if k > 1 {
        assert Pow64(k - 1) == 64 * Pow64(k - 2);
      }
    }
  }

  /** The widths the delta codec relies on. */
  lemma DigitsWidth(v: nat)
    ensures v < 0x100_0000 ==> |Digits(v)| <= 4
    ensures v < 0x4000_0000 ==> |Digits(v)| <= 5
    ensures v < 0x1_0000_0000 ==> |Digits(v)| <= 6
  {
    assert Pow64(4) == 0x100_0000;
    assert Pow64(5) == 0x4000_0000;
    assert Pow64(6) == 0x10_0000_0000;
    DigitsLength(v, 4);
    DigitsLength(v, 5);
    DigitsLength(v, 6);
  }

  /** deltaGetInt from position `p` on, with `v` read so far: the value and the position behind it. */
  function GetIntFrom(z: bytes, p: nat, v: nat): (r: (nat, nat))
    ensures p <= r.1 <= Max(p, |z|)
    ensures DigitValue(At(z, r.1)) < 0
    ensures v < 0x1_0000_0000 ==> r.0 < 0x1_0000_0000
    decreases |z| - p
  {
    var c := DigitValue(At(z, p));
    if c < 0 then (v, p) else GetIntFrom(z, p + 1, U32(v * 64 + c))
  }

  function GetInt(z: bytes, p: nat): (r: (nat, nat))
    ensures p <= r.1 <= Max(p, |z|)
    ensures DigitValue(At(z, r.1)) < 0
    ensures r.0 < 0x1_0000_0000
  {
    GetIntFrom(z, p, 0)
  }

  /** The value of some digits, without any bound. */
  function Value(s: bytes): nat
    requires forall k :: 0 <= k < |s| ==> DigitValue(s[k]) >= 0
  {
    if s == [] then 0 else 64 * Value(s[..|s| - 1]) + DigitValue(s[|s| - 1])
  }

  /** deltaGetInt stops at the first byte that is no digit, and its result is the value of the digits before it
    * modulo 2^32. */
  lemma GetIntExactly(z: bytes, p: nat)
    requires p <= |z|
    ensures var (v, q) := GetInt(z, p);
      && p <= q <= |z| && (forall k :: p <= k < q ==> DigitValue(z[k]) >= 0) && DigitValue(At(z, q)) < 0
      && v == U32(Value(z[p..q]))
  {
    assert z[p..p] == [];
    GetIntFromExactly(z, p, p, 0);
  }

  lemma {:induction false} GetIntFromExactly(z: bytes, p: nat, q: nat, v: nat)
    requires p <= q <= |z| && (forall k :: p <= k < q ==> DigitValue(z[k]) >= 0) && v == U32(Value(z[p..q]))
    ensures var (w, r) := GetIntFrom(z, q, v);
      q <= r <= |z| && (forall k :: p <= k < r ==> DigitValue(z[k]) >= 0) && w == U32(Value(z[p..r]))
    decreases |z| - q
  {
    hide DigitValue, U32, Value;
    var c := DigitValue(At(z, q));
    NulIsNoDigit();
    if c >= 0 {
      ValueSnoc(z[p..q], z[q]);
      assert z[p..q] + [z[q]] == z[p..q + 1];
      U32Mul(Value(z[p..q]), 64);
      U32Add(Value(z[p..q]) * 64, c);
      U32Add(v * 64, c);
      GetIntFromExactly(z, p, q + 1, U32(v * 64 + c));
    }
  }

  lemma ValueSnoc(s: bytes, c: byte)
    requires (forall k :: 0 <= k < |s| ==> DigitValue(s[k]) >= 0) && DigitValue(c) >= 0
    ensures Value(s + [c]) == 64 * Value(s) + DigitValue(c)
  {
    assert (s + [c])[..|s|] == s;
  }

  lemma NulIsNoDigit()
    ensures DigitValue(0) < 0
  {
  }

  /** The digits of `v` stand at `p`. */
  predicate IsAt(z: bytes, p: nat, s: bytes) {
    p + |s| <= |z| && z[p..p + |s|] == s
  }

  lemma {:induction false} ReadsDigits(z: bytes, p: nat, v: nat)
    requires v < 0x1_0000_0000
    requires IsAt(z, p, PositiveDigits(v))
    ensures GetIntFrom(z, p, 0) == GetIntFrom(z, p + |PositiveDigits(v)|, v)
    decreases v
  {
    if v > 0 {
      ReadsLast(z, p, v);
      ReadsDigits(z, p, v / 64);
    }
  }

  lemma ReadsLast(z: bytes, p: nat, v: nat)
    requires 0 < v < 0x1_0000_0000
    requires IsAt(z, p, PositiveDigits(v))
    ensures IsAt(z, p, PositiveDigits(v / 64))
    ensures GetIntFrom(z, p + |PositiveDigits(v / 64)|, v / 64) == GetIntFrom(z, p + |PositiveDigits(v)|, v)
  {
    var (q, d) := (v / 64, v % 64);
    var hi := PositiveDigits(q);
    ReadsInit(z, p, hi, DigitChar(d));
    DigitInverse(d);
    GetIntStep(z, p + |hi|, q);
    assert U32(q * 64 + d) == v;
  }

  lemma ReadsInit(z: bytes, p: nat, s: bytes, c: byte)
    requires IsAt(z, p, s + [c])
    ensures IsAt(z, p, s) && At(z, p + |s|) == c
  {
    var w := z[p..p + |s| + 1];
    assert w == s + [c];
    assert z[p..p + |s|] == w[..|s|];
    assert z[p + |s|] == w[|s|];
  }

  lemma GetIntStep(z: bytes, p: nat, v: nat)
    requires DigitValue(At(z, p)) >= 0
    ensures GetIntFrom(z, p, v) == GetIntFrom(z, p + 1, U32(v * 64 + DigitValue(At(z, p))))
  {
  }

  /** deltaGetInt undoes putInt and stops right behind the digits, whatever non-digit follows. */
  lemma GetIntAfterPutInt(z: bytes, p: nat, v: nat)
    requires v < 0x1_0000_0000
    requires IsAt(z, p, Digits(v))
    requires DigitValue(At(z, p + |Digits(v)|)) < 0
    ensures GetInt(z, p) == (v, p + |Digits(v)|)
  {
    if v == 0 {
      assert z[p] == z[p..p + 1][0] == 48;
      GetIntStep(z, p, 0);
      assert U32(0) == 0;
    } else {
      ReadsDigits(z, p, v);
    }
  }

  /** Writing one byte through the output pointer. */
  method PutByte(c: byte, z: array<byte>, n: nat) returns (n': nat)
    requires n < z.Length
    modifies z
    ensures n' == n + 1
    ensures z[..n'] == old(z[..n]) + [c]
    ensures z[n'..] == old(z[n'..])
  {
    z[n] := c;
    n' := n + 1;
  }

  /** The first loop of putInt: the digits of `v` in reverse order. */
  method FillReversed(v: nat, zBuf: array<byte>) returns (i: nat)
    requires 0 < v < 0x1_0000_0000 && zBuf.Length == 20
    modifies zBuf
    ensures i == |Digits(v)| <= 6
    ensures forall k :: 0 <= k < i ==> zBuf[k] == Digits(v)[i - 1 - k]
  {
    DigitsWidth(v);
    ghost var s := Digits(v);
    i := 0;
    var v' := v;
    while v' > 0
      invariant i + |PositiveDigits(v')| == |s|
      invariant PositiveDigits(v') == s[..|s| - i]
      invariant forall k :: 0 <= k < i ==> zBuf[k] == s[|s| - 1 - k]
    {
      assert PositiveDigits(v' / 64) == s[..|s| - i - 1] && DigitChar(v' % 64) == s[|s| - i - 1] by {
        assert s[..|s| - i] == PositiveDigits(v' / 64) + [DigitChar(v' % 64)];
        assert s[..|s| - i][..|s| - i - 1] == s[..|s| - i - 1];
      }
      zBuf[i] := DigitChar(v' % 64);
      i, v' := i + 1, v' / 64;
    }
  }

  /** putInt: writes the digits of `v` at position `n` of `z` and returns the position behind them. */
  method PutInt(v: nat, z: array<byte>, n: nat) returns (n': nat)
    requires v < 0x1_0000_0000
    requires n + |Digits(v)| <= z.Length
    modifies z
    ensures n' == n + |Digits(v)|
    ensures z[..n'] == old(z[..n]) + Digits(v)
    ensures z[n'..] == old(z[n'..])
  {
    if v == 0 {
      n' := PutByte(48, z, n);
      return;
    }
    var zBuf := new byte[20];
    var i := FillReversed(v, zBuf);
    ghost var s := Digits(v);
    n' := n;
    var j := i - 1;
    while j >= 0
      invariant -1 <= j < i
      invariant n' == n + i - 1 - j
      invariant forall k :: 0 <= k < i ==> zBuf[k] == s[i - 1 - k]
      invariant z[..n'] == old(z[..n]) + s[..i - 1 - j]
      invariant z[n'..] == old(z[n'..])
    {
      n' := PutByte(zBuf[j], z, n');
      j := j - 1;
      assert s[..i - 1 - j] == s[..i - 2 - j] + [s[i - 2 - j]];
      assert z[n'..] == old(z[n' - 1..])[1..];
    }
    assert s[..i] == s;
  }

  /** deltaGetInt: the position takes the place of the pointer, `len` is decremented per digit. */
  method DeltaGetInt(z: bytes, p: nat, len: int) returns (v: nat, p': nat, len': int)
    ensures (v, p') == GetInt(z, p)
    ensures len' == len - (p' - p)
  {
    v, p' := 0, p;
    var c := DigitValue(At(z, p'));
    while c >= 0
      invariant p <= p' && v < 0x1_0000_0000
      invariant c == DigitValue(At(z, p'))
      invariant GetIntFrom(z, p', v) == GetInt(z, p)
      decreases |z| - p'
    {
      v, p' := U32(v * 64 + c), p' + 1;
      c := DigitValue(At(z, p'));
    }
    len' := len - (p' - p);
  }

  /** digit_count: the bound `x` is shifted as a 32-bit number, so the loop needs v below 2^30. */
  method DigitCount(v: nat) returns (i: nat)
    requires v < 0x4000_0000
    ensures i == |Digits(v)|
  {
    var x := 64;
    i := 1;
    assert Pow64(0) == 1 && Pow64(1) == 64;
    while v >= x
      invariant 1 <= i <= 5
      invariant x == Pow64(i) <= 0x4000_0000
      invariant i > 1 ==> Pow64(i - 1) <= v
    {
      Pow64Five();
      Pow64Monotonic(5, i);
      Pow64Monotonic(i + 1, 5);
      i, x := i + 1, U32(x * 64);
    }
    DigitsLength(v, i);
  }

  lemma Pow64Five()
    ensures Pow64(5) == 0x4000_0000
  {
    assert Pow64(3) == 0x4_0000;
  }

  lemma {:induction false} Pow64Monotonic(j: nat, k: nat)
    ensures j <= k ==> Pow64(j) <= Pow64(k)
    decreases k
  {
    if j < k {
      Pow64Monotonic(j, k - 1);
    }
  }
}
