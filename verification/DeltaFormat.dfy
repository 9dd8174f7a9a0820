/** The delta format and its first decoder (ext/fossildelta.c:269-300, 506-621, 663-698). */
module DeltaFormat {
  import opened Bytes
  import opened Base64
  import opened DeltaChecksum

  /** A segment of the delta: copy `cnt` source bytes from `ofst` on, or insert literal text. */
  datatype Command =
    | Copy(cnt: nat, ofst: nat)
    | Insert(text: bytes)
  {
    function Render(): (r: bytes) {
      match this
      case Copy(cnt, ofst) => Digits(cnt) + (['@' as int] + (Digits(ofst) + [',' as int]))
      case Insert(text) => Digits(|text|) + ([':' as int] + text)
    }

    predicate FitsIn(src: bytes) {
      match this
      case Copy(cnt, ofst) => cnt < 0x1_0000_0000 && ofst + cnt <= |src| < 0x1_0000_0000
      case Insert(text) => |text| < 0x1_0000_0000
    }

    /** The bytes the command contributes to the output. */
    function Output(src: bytes): bytes
      requires FitsIn(src)
    {
      match this
      case Copy(cnt, ofst) => src[ofst..ofst + cnt]
      case Insert(text) => text
    }
  }

  predicate AllFit(cs: seq<Command>, src: bytes) {
    forall i :: 0 <= i < |cs| ==> cs[i].FitsIn(src)
  }

  function RenderAll(cs: seq<Command>): bytes {
    if cs == [] then [] else cs[0].Render() + RenderAll(cs[1..])
  }

  function OutputAll(cs: seq<Command>, src: bytes): bytes
    requires AllFit(cs, src)
  {
    if cs == [] then [] else cs[0].Output(src) + OutputAll(cs[1..], src)
  }

  lemma {:induction false} RenderConcat(cs: seq<Command>, ds: seq<Command>)
    ensures RenderAll(cs + ds) == RenderAll(cs) + RenderAll(ds)
  {
    if cs == [] {
      assert cs + ds == ds;
    } else {
      assert (cs + ds)[1..] == cs[1..] + ds;
      RenderConcat(cs[1..], ds);
    }
  }

  lemma {:induction false} OutputConcat(cs: seq<Command>, ds: seq<Command>, src: bytes)
    requires AllFit(cs, src) && AllFit(ds, src)
    ensures OutputAll(cs + ds, src) == OutputAll(cs, src) + OutputAll(ds, src)
  {
    if cs == [] {
      assert cs + ds == ds;
    } else {
      assert (cs + ds)[1..] == cs[1..] + ds;
      OutputConcat(cs[1..], ds, src);
    }
  }

  /** A whole delta: the target size, the commands, the checksum. */
  function Render(size: nat, cs: seq<Command>, cksum: nat): bytes {
    Digits(size) + (['\n' as int] + (RenderAll(cs) + (Digits(cksum) + [';' as int])))
  }

  /** What an example looks like on the wire. */
  lemma Example()
    ensures Render(4, [Copy(2, 1), Insert([120, 121])], 3)
         == ['4' as int, '\n' as int, '2' as int, '@' as int, '1' as int, ',' as int,
             '2' as int, ':' as int, 'x' as int, 'y' as int, '3' as int, ';' as int]
  {
    SingleDigit(1);
    SingleDigit(2);
    SingleDigit(3);
    SingleDigit(4);
    hide Digits;
    var cs := [Copy(2, 1), Insert([120, 121])];
    assert cs[1..] == [Insert([120, 121])] && cs[1..][1..] == [];
  }

  lemma SingleDigit(d: nat)
    requires 0 < d < 64
    ensures Digits(d) == [DigitChar(d)]
  {
    assert PositiveDigits(d / 64) == [];
  }

  /** What applying a delta comes to: the output, a rejected delta (-1 in C), or arguments on which the
    * C code copies outside its buffers because a 32-bit sum wrapped around. */
  datatype Outcome = Done(out: bytes) | Corrupt | Undefined

  /** The main loop of delta_apply at position `p`, with `out` written so far; `test` says whether the
    * program was built with FOSSIL_ENABLE_DELTA_CKSUM_TEST. */
  function ApplyFrom(test: bool, src: bytes, z: bytes, p: nat, limit: nat, out: bytes): (r: Outcome)
    requires |out| <= limit < 0x1_0000_0000
    ensures r.Done? ==> out <= r.out && |r.out| == limit
    decreases |z| + 1 - p, 0
  {
    if p >= |z| || z[p] == 0 then Corrupt
    else
      var (cnt, q) := GetInt(z, p);
      if At(z, q) == '@' as int then
        ApplyCopy(test, src, z, q + 1, limit, out, cnt)
      else if At(z, q) == ':' as int then
        ApplyInsert(test, src, z, q + 1, limit, out, cnt)
      else if At(z, q) == ';' as int then
        ApplyEnd(test, limit, out, cnt)
      else Corrupt
  }

  /** A copy command whose count has been read; its offset starts at `q`. */
  function ApplyCopy(test: bool, src: bytes, z: bytes, q: nat, limit: nat, out: bytes, cnt: nat): (r: Outcome)
    requires |out| <= limit < 0x1_0000_0000 && q <= |z|
    ensures r.Done? ==> out <= r.out && |r.out| == limit
    decreases |z| + 1 - q, 1
  {
    var (ofst, r) := GetInt(z, q);
    if (r < |z| && z[r] != ',' as int) || U32(|out| + cnt) > limit || U32(ofst + cnt) > |src| then Corrupt
    else if |out| + cnt > limit || ofst + cnt > |src| then Undefined
    else ApplyFrom(test, src, z, r + 1, limit, out + src[ofst..ofst + cnt])
  }

  /** An insert command whose count has been read; its text starts at `q`. */
  function ApplyInsert(test: bool, src: bytes, z: bytes, q: nat, limit: nat, out: bytes, cnt: nat): (r: Outcome)
    requires |out| <= limit < 0x1_0000_0000 && q <= |z|
    ensures r.Done? ==> out <= r.out && |r.out| == limit
    decreases |z| + 1 - q, 1
  {
    if U32(|out| + cnt) > limit || cnt > |z| - q then Corrupt
    else if |out| + cnt > limit then Undefined
    else ApplyFrom(test, src, z, q + cnt, limit, out + z[q..q + cnt])
  }

  /** The number before the final ';' is the checksum. */
  function ApplyEnd(test: bool, limit: nat, out: bytes, cnt: nat): Outcome {
    if (test && cnt != Checksum(out)) || |out| != limit then Corrupt else Done(out)
  }

  lemma UnfoldCommand(test: bool, src: bytes, z: bytes, p: nat, limit: nat, out: bytes)
    requires |out| <= limit < 0x1_0000_0000 && p < |z| && z[p] != 0
    ensures var (cnt, q) := GetInt(z, p);
      ApplyFrom(test, src, z, p, limit, out) ==
      if At(z, q) == '@' as int then ApplyCopy(test, src, z, q + 1, limit, out, cnt)
      else if At(z, q) == ':' as int then ApplyInsert(test, src, z, q + 1, limit, out, cnt)
      else if At(z, q) == ';' as int then ApplyEnd(test, limit, out, cnt)
      else Corrupt
  {
    hide GetInt, ApplyCopy, ApplyInsert, ApplyEnd;
  }

  /** delta_output_size: -1 unless the size is followed by a newline. */
  function OutputSize(z: bytes): int {
    var (size, p) := GetInt(z, 0);
    if At(z, p) != '\n' as int then -1 else AsInt32(size)
  }

  /** delta_apply as called by the SQL function of that name, which first asks for the output size. */
  function Apply(test: bool, src: bytes, z: bytes): (r: Outcome)
    ensures r.Done? ==> |r.out| == OutputSize(z)
  {
    var (limit, p) := GetInt(z, 0);
    if OutputSize(z) < 0 then Corrupt else ApplyFrom(test, src, z, p + 1, limit, [])
  }

  // ---------- Reading back what Render wrote ----------

  /** A number that is followed by a non-digit reads back from the front of the rest of the delta. */
  lemma NumberAt(z: bytes, p: nat, v: nat, rest: bytes)
    requires v < 0x1_0000_0000 && p <= |z|
    requires z[p..] == Digits(v) + rest
    requires rest != [] && DigitValue(rest[0]) < 0
    ensures GetInt(z, p) == (v, p + |Digits(v)|)
    ensures z[p + |Digits(v)|..] == rest
    ensures z[p] != 0
  {
    var s := Digits(v);
    var w := z[p..];
    assert z[p..p + |s|] == w[..|s|] == s;
    assert z[p + |s|..] == w[|s|..] == rest;
    assert At(z, p + |s|) == rest[0];
    GetIntAfterPutInt(z, p, v);
    DigitsNonZero(v);
    assert z[p] == w[0] == s[0];
  }

  lemma {:induction false} DigitsNonZero(v: nat)
    ensures Digits(v)[0] != 0
  {
    if v >= 64 {
      assert Digits(v)[0] == Digits(v / 64)[0];
      DigitsNonZero(v / 64);
    } else if v > 0 {
      assert PositiveDigits(v / 64) == [];
    }
  }

  lemma NonDigits()
    ensures DigitValue('\n' as int) < 0 && DigitValue('@' as int) < 0 && DigitValue(',' as int) < 0
    ensures DigitValue(':' as int) < 0 && DigitValue(';' as int) < 0
  {
  }

  lemma Behind(z: bytes, q: nat, c: byte, rest: bytes)
    requires q <= |z| && z[q..] == [c] + rest
    ensures q < |z| && z[q] == At(z, q) == c && z[q + 1..] == rest
  {
    assert z[q] == z[q..][0];
    assert z[q + 1..] == z[q..][1..];
  }

  lemma Segment(z: bytes, q: nat, c: byte, text: bytes, rest: bytes)
    requires q <= |z| && z[q..] == [c] + (text + rest)
    ensures q + 1 + |text| <= |z| && z[q] == At(z, q) == c
    ensures z[q + 1..q + 1 + |text|] == text
    ensures z[q + 1 + |text|..] == rest
  {
    var w := z[q..];
    assert z[q] == w[0];
    assert z[q + 1..q + 1 + |text|] == w[1..1 + |text|];
    assert z[q + 1 + |text|..] == w[1 + |text|..];
  }

  lemma InsertLayout(z: bytes, p: nat, text: bytes, rest: bytes)
    requires p <= |z| && z[p..] == Insert(text).Render() + rest && |text| < 0x1_0000_0000
    ensures var q := p + |Digits(|text|)|;
      && q + 1 + |text| <= |z| && z[p] != 0
      && GetInt(z, p) == (|text|, q) && At(z, q) == ':' as int
      && z[q + 1..q + 1 + |text|] == text && z[q + 1 + |text|..] == rest
      && q + 1 + |text| == p + |Insert(text).Render()|
  {
    NonDigits();
    hide Digits, GetInt, DigitValue;
    var q := p + |Digits(|text|)|;
    var tail := [':' as int] + (text + rest);
    Assoc(Digits(|text|), [':' as int] + text, rest);
    Assoc([':' as int], text, rest);
    NumberAt(z, p, |text|, tail);
    Segment(z, q, ':' as int, text, rest);
  }

  lemma CopySplit(cnt: nat, ofst: nat, rest: bytes)
    ensures Copy(cnt, ofst).Render() + rest
         == Digits(cnt) + (['@' as int] + (Digits(ofst) + ([',' as int] + rest)))
    ensures |Copy(cnt, ofst).Render()| == |Digits(cnt)| + |Digits(ofst)| + 2
  {
    hide Digits;
    Assoc(Digits(cnt), ['@' as int] + (Digits(ofst) + [',' as int]), rest);
    Assoc(['@' as int], Digits(ofst) + [',' as int], rest);
    Assoc(Digits(ofst), [',' as int], rest);
  }

  lemma CopyLayout(z: bytes, p: nat, cnt: nat, ofst: nat, rest: bytes)
    requires p <= |z| && z[p..] == Copy(cnt, ofst).Render() + rest
    requires cnt < 0x1_0000_0000 && ofst < 0x1_0000_0000
    ensures var q := p + |Digits(cnt)|; var r := q + 1 + |Digits(ofst)|;
      && r < |z| && z[p] != 0
      && GetInt(z, p) == (cnt, q) && At(z, q) == '@' as int
      && GetInt(z, q + 1) == (ofst, r) && z[r] == ',' as int && z[r + 1..] == rest
      && r + 1 == p + |Copy(cnt, ofst).Render()|
  {
    NonDigits();
    hide Digits, GetInt, DigitValue, Command.Render;
    var q := p + |Digits(cnt)|;
    var tail' := [',' as int] + rest;
    var tail := ['@' as int] + (Digits(ofst) + tail');
    CopySplit(cnt, ofst, rest);
    NumberAt(z, p, cnt, tail);
    Behind(z, q, '@' as int, Digits(ofst) + tail');
    NumberAt(z, q + 1, ofst, tail');
    Behind(z, q + 1 + |Digits(ofst)|, ',' as int, rest);
  }

  lemma UnfoldInsert(test: bool, src: bytes, z: bytes, p: nat, limit: nat, out: bytes, cnt: nat, q: nat)
    requires p < |z| && z[p] != 0 && GetInt(z, p) == (cnt, q) && At(z, q) == ':' as int
    requires q + 1 + cnt <= |z| && |out| + cnt <= limit < 0x1_0000_0000
    ensures ApplyFrom(test, src, z, p, limit, out)
         == ApplyFrom(test, src, z, q + 1 + cnt, limit, out + z[q + 1..q + 1 + cnt])
  {
    hide GetInt, DigitValue, Checksum;
    U32Small(|out| + cnt);
  }

  lemma UnfoldCopy(test: bool, src: bytes, z: bytes, p: nat, limit: nat, out: bytes,
                   cnt: nat, q: nat, ofst: nat, r: nat)
    requires p < |z| && z[p] != 0 && GetInt(z, p) == (cnt, q) && At(z, q) == '@' as int
    requires q < |z| && GetInt(z, q + 1) == (ofst, r) && r < |z| && z[r] == ',' as int
    requires |out| + cnt <= limit < 0x1_0000_0000 && ofst + cnt <= |src| < 0x1_0000_0000
    ensures ApplyFrom(test, src, z, p, limit, out)
         == ApplyFrom(test, src, z, r + 1, limit, out + src[ofst..ofst + cnt])
  {
    hide GetInt, DigitValue, Checksum;
    U32Small(|out| + cnt);
    U32Small(ofst + cnt);
  }

  lemma InsertStep(test: bool, src: bytes, z: bytes, p: nat, limit: nat, out: bytes, text: bytes, rest: bytes)
    requires p <= |z| && z[p..] == Insert(text).Render() + rest
    requires |out| + |text| <= limit < 0x1_0000_0000
    ensures var p' := p + |Insert(text).Render()|;
      && p' <= |z| && z[p'..] == rest
      && ApplyFrom(test, src, z, p, limit, out) == ApplyFrom(test, src, z, p', limit, out + text)
  {
    hide Digits, GetInt, ApplyFrom, Command.Render;
    InsertLayout(z, p, text, rest);
    UnfoldInsert(test, src, z, p, limit, out, |text|, p + |Digits(|text|)|);
  }

  lemma CopyStep(test: bool, src: bytes, z: bytes, p: nat, limit: nat, out: bytes,
                 cnt: nat, ofst: nat, rest: bytes)
    requires p <= |z| && z[p..] == Copy(cnt, ofst).Render() + rest
    requires |out| + cnt <= limit < 0x1_0000_0000 && ofst + cnt <= |src| < 0x1_0000_0000
    ensures var p' := p + |Copy(cnt, ofst).Render()|;
      && p' <= |z| && z[p'..] == rest
      && ApplyFrom(test, src, z, p, limit, out)
      == ApplyFrom(test, src, z, p', limit, out + src[ofst..ofst + cnt])
  {
    hide Digits, GetInt, ApplyFrom, Command.Render;
    CopyLayout(z, p, cnt, ofst, rest);
    var q := p + |Digits(cnt)|;
    UnfoldCopy(test, src, z, p, limit, out, cnt, q, ofst, q + 1 + |Digits(ofst)|);
  }

  /** One rendered command, read and carried out. */
  lemma CommandStep(test: bool, src: bytes, z: bytes, p: nat, limit: nat, out: bytes, c: Command, rest: bytes)
    requires c.FitsIn(src)
    requires p <= |z| && z[p..] == c.Render() + rest
    requires |out| + |c.Output(src)| <= limit < 0x1_0000_0000
    ensures p + |c.Render()| <= |z| && z[p + |c.Render()|..] == rest
    ensures ApplyFrom(test, src, z, p, limit, out)
         == ApplyFrom(test, src, z, p + |c.Render()|, limit, out + c.Output(src))
  {
    hide Digits, GetInt, ApplyFrom, Command.Render;
    match c {
      case Insert(text) => InsertStep(test, src, z, p, limit, out, text, rest);
      case Copy(cnt, ofst) => CopyStep(test, src, z, p, limit, out, cnt, ofst, rest);
    }
  }

  lemma ApplyChecksum(test: bool, src: bytes, z: bytes, p: nat, limit: nat, out: bytes, cksum: nat)
    requires p <= |z| && z[p..] == Digits(cksum) + [';' as int]
    requires cksum < 0x1_0000_0000 && |out| == limit < 0x1_0000_0000
    requires test ==> cksum == Checksum(out)
    ensures ApplyFrom(test, src, z, p, limit, out) == Done(out)
  {
    NonDigits();
    hide Digits, GetInt, DigitValue, WordSum, Checksum;
    NumberAt(z, p, cksum, [';' as int]);
    var q := p + |Digits(cksum)|;
    assert z[q] == z[q..][0] == ';' as int;
  }

  lemma {:induction false} ApplyCommands(test: bool, src: bytes, z: bytes, p: nat, limit: nat, out: bytes,
                                         cs: seq<Command>, cksum: nat)
    requires AllFit(cs, src) && cksum < 0x1_0000_0000
    requires p <= |z| && z[p..] == RenderAll(cs) + (Digits(cksum) + [';' as int])
    requires |out| + |OutputAll(cs, src)| == limit < 0x1_0000_0000
    requires test ==> cksum == Checksum(out + OutputAll(cs, src))
    ensures ApplyFrom(test, src, z, p, limit, out) == Done(out + OutputAll(cs, src))
    decreases |cs|
  {
    var end := Digits(cksum) + [';' as int];
    hide Digits, ApplyFrom, Checksum, GetInt;
    if cs == [] {
      assert z[p..] == end;
      assert out + OutputAll(cs, src) == out;
      ApplyChecksum(test, src, z, p, limit, out, cksum);
    } else {
      var c := cs[0];
      var rest := RenderAll(cs[1..]) + end;
      Assoc(c.Render(), RenderAll(cs[1..]), end);
      Assoc(out, c.Output(src), OutputAll(cs[1..], src));
      CommandStep(test, src, z, p, limit, out, c, rest);
      ApplyCommands(test, src, z, p + |c.Render()|, limit, out + c.Output(src), cs[1..], cksum);
    }
  }

  /** A rendered delta applies to its source, with or without the checksum test; its size line is read back. */
  lemma ApplyRender(test: bool, src: bytes, cs: seq<Command>, cksum: nat)
    requires AllFit(cs, src) && cksum < 0x1_0000_0000
    requires |OutputAll(cs, src)| < 0x8000_0000
    requires test ==> cksum == Checksum(OutputAll(cs, src))
    ensures Apply(test, src, Render(|OutputAll(cs, src)|, cs, cksum)) == Done(OutputAll(cs, src))
  {
    NonDigits();
    hide Digits, GetInt, DigitValue, WordSum, Checksum, ApplyFrom, RenderAll, OutputAll;
    var out := OutputAll(cs, src);
    var z := Render(|out|, cs, cksum);
    var body := RenderAll(cs) + (Digits(cksum) + [';' as int]);
    var n := |Digits(|out|)|;
    assert z[0..] == z == Digits(|out|) + (['\n' as int] + body);
    NumberAt(z, 0, |out|, ['\n' as int] + body);
    assert z[n] == z[n..][0];
    assert z[n + 1..] == z[n..][1..] == body;
    assert [] + out == out;
    ApplyCommands(test, src, z, n + 1, |out|, [], cs, cksum);
  }
}
