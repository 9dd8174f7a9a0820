/** The rolling hash that finds source blocks inside the target (ext/fossildelta.c:72-129). */
module RollingHash {
  import opened Bytes

  /** A plain C `char` is signed: bytes from 128 up count as negative numbers. */
  function CharVal(b: byte): int {
    if b < 128 then b else b - 256
  }

  /** The plain sum of a window. */
  function Sum(w: bytes): int {
    if w == [] then 0 else Sum(w[..|w| - 1]) + CharVal(w[|w| - 1])
  }

  /** The weighted sum of a window: the first byte counts |w| times, the last one once. */
  function Weighted(w: bytes): int {
    if w == [] then 0 else Weighted(w[..|w| - 1]) + Sum(w)
  }

  /** The hash of a 16-byte window: plain sum in the low half, weighted sum in the high half. */
  function WindowHash(w: bytes): nat {
    U16(Sum(w)) + 0x1_0000 * U16(Weighted(w))
  }

  lemma {:induction false} SumSnoc(w: bytes, c: byte)
    ensures Sum(w + [c]) == Sum(w) + CharVal(c)
    ensures Weighted(w + [c]) == Weighted(w) + Sum(w) + CharVal(c)
  {
    assert (w + [c])[..|w|] == w;
  }

  /** The two halves of the hash, byte by byte: the first byte counts 16 times in the high half, the last one once.
    * Bytes count as signed numbers, which is the same modulo 2^16 as long as 256 is taken off the upper half. */
  lemma HashHalves(w: bytes)
    requires |w| == 16
    ensures WindowHash(w) % 0x1_0000 == SignedSum(w, 16, false) % 0x1_0000
    ensures WindowHash(w) / 0x1_0000 == SignedSum(w, 16, true) % 0x1_0000
  {
    SumsAreSigned(w, 16);
    assert w[..16] == w;
  }

  function SignedSum(w: bytes, n: nat, weighted: bool): int
    requires n <= |w|
  {
    if n == 0 then 0
    else
      var c: int := w[n - 1];
      SignedSum(w, n - 1, weighted) + (if weighted then |w| - (n - 1) else 1) * (if c >= 128 then c - 256 else c)
  }

  lemma SumNone()
    ensures Sum([]) == Weighted([]) == 0
  {
  }

  lemma {:induction false} SumsAreSigned(w: bytes, n: nat)
    requires n <= |w|
    ensures Sum(w[..n]) == SignedSum(w, n, false)
    ensures Weighted(w[..n]) + (|w| - n) * Sum(w[..n]) == SignedSum(w, n, true)
    decreases n
  {
    hide Sum, Weighted;
    SumNone();
    assert w[..0] == [];
    if n > 0 {
      SumsAreSigned(w, n - 1);
      var v, d, c := w[..n - 1], |w| - n, CharVal(w[n - 1]);
      assert w[..n] == v + [w[n - 1]];
      SumSnoc(v, w[n - 1]);
      assert (d + 1) * Sum(v) == d * Sum(v) + Sum(v) && (d + 1) * c == d * c + c;
      assert d * (Sum(v) + c) == d * Sum(v) + d * c;
    }
  }

  /** The weights: dropping the first byte takes it out |w| times. */
  lemma {:induction false} DropFirst(w: bytes)
    requires w != []
    ensures Sum(w) == CharVal(w[0]) + Sum(w[1..])
    ensures Weighted(w) == |w| * CharVal(w[0]) + Weighted(w[1..])
  {
    var v := w[..|w| - 1];
    if v == [] {
      assert w[1..] == [];
    } else {
      DropFirst(v);
      assert w[1..][..|w| - 2] == v[1..];
    }
  }

  /** Sliding the window by one byte changes the two sums as hash_next computes them. */
  lemma {:induction false} Slide(w: bytes, c: byte)
    requires |w| == 16
    ensures Sum(w[1..] + [c]) == Sum(w) - CharVal(w[0]) + CharVal(c)
    ensures Weighted(w[1..] + [c]) == Weighted(w) - 16 * CharVal(w[0]) + Sum(w[1..] + [c])
  {
    DropFirst(w);
    SumSnoc(w[1..], c);
  }

  /** One step of hash_next on the two 16-bit sums: `z` leaves the window, `c` enters it. */
  function NextSums(a: nat, b: nat, z: byte, c: byte): (nat, nat) {
    var oldest := U16(CharVal(z));
    var a' := U16(a - oldest + CharVal(c));
    (a', U16(b - 16 * oldest + a'))
  }

  /** hash_next keeps the sums those of the window, whatever was lost to the 16-bit width. */
  lemma NextSumsSlide(w: bytes, c: byte)
    requires |w| == 16
    ensures NextSums(U16(Sum(w)), U16(Weighted(w)), w[0], c)
         == (U16(Sum(w[1..] + [c])), U16(Weighted(w[1..] + [c])))
  {
    hide U16;
    Slide(w, c);
    var o, n := CharVal(w[0]), CharVal(c);
    var oldest := U16(o);
    var sum' := Sum(w[1..] + [c]);
    U16Add(Sum(w), n - oldest);
    U16Sub(Sum(w) + n, o, 1);
    U16Add(Weighted(w), U16(sum') - 16 * oldest);
    U16Add(sum', Weighted(w) - 16 * oldest);
    U16Sub(Weighted(w) + sum', o, 16);
  }

  /** The sums after rolling over all of `cs`. */
  function RollSums(a: nat, b: nat, w: bytes, cs: bytes): (nat, nat)
    requires |w| == 16
    decreases |cs|
  {
    if cs == [] then (a, b)
    else
      var (a', b') := NextSums(a, b, w[0], cs[0]);
      RollSums(a', b', w[1..] + [cs[0]], cs[1..])
  }

  /** After any number of steps the rolled sums are those of the last 16 bytes seen. */
  lemma {:induction false} RollingIsHashOnce(w: bytes, cs: bytes)
    requires |w| == 16
    ensures RollSums(U16(Sum(w)), U16(Weighted(w)), w, cs)
         == (U16(Sum((w + cs)[|cs|..])), U16(Weighted((w + cs)[|cs|..])))
    decreases |cs|
  {
    if cs == [] {
      assert (w + cs)[0..] == w;
    } else {
      var v := w[1..] + [cs[0]];
      NextSumsSlide(w, cs[0]);
      RollingIsHashOnce(v, cs[1..]);
      assert w + cs == [w[0]] + (v + cs[1..]);
      assert (v + cs[1..])[|cs| - 1..] == (w + cs)[|cs|..];
    }
  }

  /** The hash struct: 16-bit sums over a circular buffer whose window starts at `i`. */
  class Hash {
    var a: nat
    var b: nat
    var i: nat
    const z: array<byte>

    ghost function Window(): (w: bytes)
      requires z.Length == 16 && i < 16
      reads this, z
      ensures |w| == 16
    {
      z[i..] + z[..i]
    }

    ghost predicate Valid()
      reads this, z
    {
      && z.Length == 16
      && i < 16
      && a == U16(Sum(Window()))
      && b == U16(Weighted(Window()))
    }

    /** An uninitialised struct: nothing is promised about its contents. */
    constructor ()
      ensures fresh(z) && z.Length == 16
    {
      z := new byte[16];
      a, b, i := 0, 0, 0;
    }

    /** hash_init: hash the 16 bytes of `s` at `p`. */
    method Init(s: bytes, p: nat)
      requires z.Length == 16 && p + 16 <= |s|
      modifies this, z
      ensures Valid() && Window() == s[p..p + 16] && i == 0
    {
      hide U16;
      var sa, sb := SumUp(s, p);
      forall k | 0 <= k < 16 {
        z[k] := s[p + k];
      }
      a, b, i := sa, sb, 0;
      assert Window() == s[p..p + 16];
    }

    /** hash_next: drop the oldest byte of the window and take `c` in. */
    method Next(c: byte)
      requires Valid()
      modifies this, z
      ensures Valid() && Window() == old(Window())[1..] + [c]
    {
      hide U16;
      ghost var w := Window();
      NextSumsSlide(w, c);
      var oldest := U16(CharVal(z[i]));
      z[i] := c;
      i := (i + 1) % 16;
      assert Window() == w[1..] + [c];
      a := U16(a - oldest + CharVal(c));
      b := U16(b - 16 * oldest + a);
    }

    /** hash_32bit */
    method Hash32() returns (r: nat)
      requires Valid()
      ensures r == WindowHash(Window())
    {
      r := a + 0x1_0000 * b;
    }
  }

  /** hash_once: the hash of the 16 bytes of `s` at `p`, without a Hash object. */
  method HashOnce(s: bytes, p: nat) returns (r: nat)
    requires p + 16 <= |s|
    ensures r == WindowHash(s[p..p + 16])
  {
    var a, b := SumUp(s, p);
    r := a + 0x1_0000 * b;
  }

  /** The loop of hash_init and hash_once. */
  method SumUp(s: bytes, p: nat) returns (a: nat, b: nat)
    requires p + 16 <= |s|
    ensures a == U16(Sum(s[p..p + 16])) && b == U16(Weighted(s[p..p + 16]))
  {
    hide U16;
    a := U16(CharVal(s[p]));
    b := a;
    var i := 1;
    SumSnoc([], s[p]);
    assert s[p..p + 1] == [] + [s[p]];
    while i < 16
      invariant 1 <= i <= 16
      invariant a == U16(Sum(s[p..p + i])) && b == U16(Weighted(s[p..p + i]))
    {
      ghost var w := s[p..p + i];
      SumSnoc(w, s[p + i]);
      assert s[p..p + i + 1] == w + [s[p + i]];
      U16Add(Sum(w), CharVal(s[p + i]));
      a := U16(a + CharVal(s[p + i]));
      U16Add(Weighted(w), a);
      U16Add(Sum(w + [s[p + i]]), Weighted(w));
      b := U16(b + a);
      i := i + 1;
    }
  }
}
