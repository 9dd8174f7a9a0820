/** delta_create: which commands it emits, and that they are right (ext/fossildelta.c:320-502). */
module DeltaCreate {
  import opened Bytes
  import opened Base64
  import opened RollingHash
  import opened DeltaChecksum
  import opened DeltaFormat
  import opened DeltaSearch

  // ---------- The commands ----------

  /** Where the scan from `base` stops: at a match, or at the end of the target. */
  datatype Found = Hit(m: Match) | EndOfTarget

  /** The scan of the target from window base + i on. */
  function Scan(src: bytes, out: bytes, base: nat, i: nat): Found
    requires |src| > 16 && base + i + 16 <= |out|
    decreases |out| - i
  {
    var m := Best(src, out, base, i);
    if m.cnt > 0 then Hit(m)
    else if base + i + 16 >= |out| then EndOfTarget
    else Scan(src, out, base, i + 1)
  }

  /** The literal text before a match, if there is any, and the copy. */
  function MatchCommands(out: bytes, base: nat, m: Match): seq<Command>
    requires base + m.litsz <= |out|
  {
    (if m.litsz > 0 then [Insert(out[base..base + m.litsz])] else []) + [Copy(m.cnt, m.ofst)]
  }

  lemma {:induction false} ScanIsSound(src: bytes, out: bytes, base: nat, i: nat)
    requires |src| > 16 && base + i + 16 <= |out|
    ensures var f := Scan(src, out, base, i);
      f.Hit? ==> Sound(src, out, base, f.m) && Pays(f.m) && f.m.cnt > 0
    decreases |out| - i
  {
    hide Best, Sound, Pays;
    var m := Best(src, out, base, i);
    BestIsSound(src, out, base, i);
    if m.cnt == 0 && base + i + 16 < |out| {
      ScanIsSound(src, out, base, i + 1);
    }
  }

  /** The commands for the target from `base` on. */
  function CommandsFrom(src: bytes, out: bytes, base: nat): seq<Command>
    requires |src| > 16 && base <= |out|
    decreases |out| - base
  {
    if base + 16 < |out| then
      ScanIsSound(src, out, base, 0);
      match Scan(src, out, base, 0)
      case EndOfTarget => [Insert(out[base..])]
      case Hit(m) => MatchCommands(out, base, m) + CommandsFrom(src, out, base + m.litsz + m.cnt)
    else if base < |out| then [Insert(out[base..])]
    else []
  }

  function Commands(src: bytes, out: bytes): seq<Command> {
    if |src| <= 16 then [Insert(out)] else CommandsFrom(src, out, 0)
  }

  /** The delta that carries `src` into `out`. */
  function Encode(src: bytes, out: bytes): bytes {
    Render(|out|, Commands(src, out), Checksum(out))
  }

  // ---------- What the commands do ----------

  lemma MatchCommandsReproduce(src: bytes, out: bytes, base: nat, m: Match)
    requires |src| < 0x1_0000_0000 && |out| < 0x1_0000_0000
    requires Sound(src, out, base, m)
    ensures AllFit(MatchCommands(out, base, m), src)
    ensures OutputAll(MatchCommands(out, base, m), src) == out[base..base + m.litsz + m.cnt]
  {
    hide OutputAll;
    var copy := [Copy(m.cnt, m.ofst)];
    var text := out[base..base + m.litsz];
    RunOne(Copy(m.cnt, m.ofst), src);
    RunOne(Insert(text), src);
    if m.litsz > 0 {
      OutputConcat([Insert(text)], copy, src);
    } else {
      assert [] + copy == copy;
    }
    SplitAt(out, base, base + m.litsz, base + m.litsz + m.cnt);
  }

  lemma RunOne(c: Command, src: bytes)
    requires c.FitsIn(src)
    ensures AllFit([c], src) && OutputAll([c], src) == c.Output(src)
  {
    assert [c][1..] == [];
    assert c.Output(src) + [] == c.Output(src);
  }

  lemma RenderNone()
    ensures RenderAll([]) == []
  {
  }

  lemma RenderOne(c: Command)
    ensures RenderAll([c]) == c.Render()
  {
    hide Command.Render;
    assert [c][1..] == [];
    assert c.Render() + [] == c.Render();
  }

  /** Running the commands on the source gives the rest of the target. */
  lemma {:induction false} CommandsReproduce(src: bytes, out: bytes, base: nat)
    requires 16 < |src| < 0x1_0000_0000 && |out| < 0x1_0000_0000 && base <= |out|
    ensures AllFit(CommandsFrom(src, out, base), src)
    ensures OutputAll(CommandsFrom(src, out, base), src) == out[base..]
    decreases |out| - base
  {
    hide Scan, MatchCommands, Pays, Sound;
    RunOne(Insert(out[base..]), src);
    if base + 16 < |out| {
      ScanIsSound(src, out, base, 0);
      var f := Scan(src, out, base, 0);
      if f.Hit? {
        var m := f.m;
        var base' := base + m.litsz + m.cnt;
        SoundBounds(src, out, base, m);
        MatchCommandsReproduce(src, out, base, m);
        CommandsReproduce(src, out, base');
        OutputConcat(MatchCommands(out, base, m), CommandsFrom(src, out, base'), src);
        assert out[base..] == out[base..base'] + out[base'..];
      }
    }
  }

  lemma SoundBounds(src: bytes, out: bytes, base: nat, m: Match)
    requires Sound(src, out, base, m)
    ensures m.ofst + m.cnt <= |src| && base + m.litsz + m.cnt <= |out|
  {
  }

  /** A literal and copy together take no more bytes than the target bytes they stand for. */
  lemma MatchCommandsPay(out: bytes, base: nat, m: Match)
    requires base + m.litsz <= |out| && Pays(m)
    ensures |RenderAll(MatchCommands(out, base, m))| <= m.litsz + m.cnt
  {
    hide Digits, Command.Render, RenderAll;
    var copy := [Copy(m.cnt, m.ofst)];
    var text := out[base..base + m.litsz];
    CopySplit(m.cnt, m.ofst, []);
    InsertSize(text);
    RenderOne(Copy(m.cnt, m.ofst));
    RenderOne(Insert(text));
    if m.litsz > 0 {
      RenderConcat([Insert(text)], copy);
    } else {
      assert [] + copy == copy;
    }
  }

  /** The cost test is exact: a match pays if and only if its two commands take no more bytes than they stand for.
    * Without a literal there is only one command, which is two bytes shorter than what the test counts. */
  lemma PaysExactly(out: bytes, base: nat, m: Match)
    requires base + m.litsz <= |out|
    ensures Pays(m) <==>
            |RenderAll(MatchCommands(out, base, m))| + (if m.litsz == 0 then 2 else 0) <= m.litsz + m.cnt
  {
    hide Digits, Command.Render, RenderAll;
    var copy := [Copy(m.cnt, m.ofst)];
    var text := out[base..base + m.litsz];
    CopySplit(m.cnt, m.ofst, []);
    InsertSize(text);
    RenderOne(Copy(m.cnt, m.ofst));
    RenderOne(Insert(text));
    ZeroIsOneDigit();
    if m.litsz > 0 {
      RenderConcat([Insert(text)], copy);
    } else {
      assert [] + copy == copy;
    }
  }

  lemma ZeroIsOneDigit()
    ensures |Digits(0)| == 1
  {
  }

  lemma InsertSize(text: bytes)
    ensures |Insert(text).Render()| == |Digits(|text|)| + 1 + |text|
  {
    hide Digits;
  }

  lemma InsertLength(text: bytes)
    requires |text| < 0x4000_0000
    ensures |Insert(text).Render()| <= |text| + 6
  {
    DigitsWidth(|text|);
  }

  lemma {:induction false} CommandsLength(src: bytes, out: bytes, base: nat)
    requires |src| > 16 && base <= |out| < 0x4000_0000
    ensures |RenderAll(CommandsFrom(src, out, base))| <= |out| - base + 6
    decreases |out| - base
  {
    hide Scan, MatchCommands, Pays, Sound, Command.Render, RenderAll;
    RenderOne(Insert(out[base..]));
    InsertLength(out[base..]);
    if base + 16 < |out| {
      ScanIsSound(src, out, base, 0);
      var f := Scan(src, out, base, 0);
      if f.Hit? {
        var m := f.m;
        SoundBounds(src, out, base, m);
        MatchCommandsPay(out, base, m);
        CommandsLength(src, out, base + m.litsz + m.cnt);
        RenderConcat(MatchCommands(out, base, m), CommandsFrom(src, out, base + m.litsz + m.cnt));
      }
    } else if base == |out| {
      RenderNone();
    }
  }

  /** The delta is at most 19 bytes longer than the target, well within the documented 60. */
  lemma EncodeLength(src: bytes, out: bytes)
    requires |out| < 0x4000_0000
    ensures |Encode(src, out)| <= |out| + 19
  {
    hide Digits, RenderAll, Command.Render, CommandsFrom, Checksum;
    DigitsWidth(|out|);
    DigitsWidth(Checksum(out));
    if |src| <= 16 {
      RenderOne(Insert(out));
      InsertLength(out);
    } else {
      CommandsLength(src, out, 0);
    }
  }

  /** Applying the delta to the source gives the target back, and its size line announces the size. */
  lemma RoundTrip(test: bool, src: bytes, out: bytes)
    requires |src| < 0x4000_0000 && |out| < 0x4000_0000
    ensures Apply(test, src, Encode(src, out)) == Done(out)
    ensures OutputSize(Encode(src, out)) == |out|
  {
    hide Render, CommandsFrom, Checksum, OutputSize;
    var cs := Commands(src, out);
    if |src| <= 16 {
      RunOne(Insert(out), src);
    } else {
      CommandsReproduce(src, out, 0);
      assert out[0..] == out;
    }
    ApplyRender(test, src, cs, Checksum(out));
  }

  // ---------- What the scan does not miss ----------

  /** The search is bound to find the window at `p`: it equals a sampled block with fewer than 250 later ones in its
    * bucket. */
  predicate Findable(src: bytes, out: bytes, p: nat)
    requires p + 16 <= |out|
  {
    var w := out[p..p + 16];
    exists b: nat :: b < |src| && 16 * b < |src| - 16 && EqualBlock(src, w, b) && |Later(src, w, b)| < 250
  }

  predicate EqualBlock(src: bytes, w: bytes, b: nat) {
    16 * b + 16 <= |src| && src[16 * b..16 * b + 16] == w
  }

  lemma FindableIsFound(src: bytes, out: bytes, base: nat, i: nat)
    requires 16 < |src| < 0x100_0000 && |out| < 0x100_0000 && base + i + 16 <= |out| && Findable(src, out, base + i)
    ensures Best(src, out, base, i).cnt >= 16
  {
    hide Best, Later;
    var w := out[base + i..base + i + 16];
    var b: nat :| 16 * b < |src| - 16 && EqualBlock(src, w, b) && |Later(src, w, b)| < 250;
    WindowIsFound(src, out, base, i, b);
  }

  /** The scan stops at the first window for which the search finds anything, with what it finds. */
  lemma {:induction false} ScanExactly(src: bytes, out: bytes, base: nat, i: nat) returns (k: nat)
    requires |src| > 16 && base + i + 16 <= |out|
    ensures i <= k && base + k + 16 <= |out| && forall j: nat :: i <= j < k ==> Best(src, out, base, j).cnt == 0
    ensures match Scan(src, out, base, i)
            case Hit(m) => m == Best(src, out, base, k) && m.cnt > 0
            case EndOfTarget => base + k + 16 == |out| && Best(src, out, base, k).cnt == 0
    decreases |out| - i
  {
    hide Best;
    if Best(src, out, base, i).cnt == 0 && base + i + 16 < |out| {
      k := ScanExactly(src, out, base, i + 1);
    } else {
      k := i;
    }
  }

  /** It never passes a window that the search is bound to find, and if it gets as far as that window it stops there
    * with a copy of at least 16 bytes. */
  lemma ScanFindsWindow(src: bytes, out: bytes, base: nat, j: nat, i: nat)
    requires 16 < |src| < 0x100_0000 && |out| < 0x100_0000
    requires j <= i && base + i + 16 <= |out| && Findable(src, out, base + i)
    ensures Scan(src, out, base, j).Hit? && Scan(src, out, base, j).m.litsz <= i
    ensures (forall k: nat :: j <= k < i ==> Best(src, out, base, k).cnt == 0) ==> Scan(src, out, base, j).m.cnt >= 16
  {
    hide Best, Findable, Scan, Sound, Pays;
    var k := ScanExactly(src, out, base, j);
    FindableIsFound(src, out, base, i);
    BestIsSound(src, out, base, k);
  }

  /** No window inside the `n` bytes from `u` on is findable. */
  predicate NoneFindable(src: bytes, out: bytes, u: nat, n: nat)
    requires u + n <= |out|
  {
    forall p: nat :: u <= p && p + 16 <= u + n ==> !Findable(src, out, p)
  }

  /** No literal among the commands for the target from `base` on contains a findable window, save a last literal of
    * at most 16 bytes, which is not searched. */
  predicate Tight(src: bytes, out: bytes, base: nat, cs: seq<Command>)
    decreases |cs|
  {
    cs == [] ||
    match cs[0]
    case Copy(cnt, _) => Tight(src, out, base + cnt, cs[1..])
    case Insert(text) =>
      && base + |text| <= |out|
      && ((|cs| == 1 && |text| <= 16) || NoneFindable(src, out, base, |text|))
      && Tight(src, out, base + |text|, cs[1..])
  }

  lemma {:induction false} CommandsAreTight(src: bytes, out: bytes, base: nat)
    requires 16 < |src| < 0x100_0000 && base <= |out| < 0x100_0000
    ensures Tight(src, out, base, CommandsFrom(src, out, base))
    decreases |out| - base
  {
    hide Best, Scan, Pays, Findable;
    if base + 16 < |out| {
      ScanIsSound(src, out, base, 0);
      var k := ScanExactly(src, out, base, 0);
      BestIsSound(src, out, base, k);
      match Scan(src, out, base, 0) {
        case EndOfTarget =>
          NothingPassed(src, out, base, k + 1);
        case Hit(m) =>
          NothingPassed(src, out, base, k);
          CommandsAreTight(src, out, base + m.litsz + m.cnt);
          MatchIsTight(src, out, base, m, CommandsFrom(src, out, base + m.litsz + m.cnt));
      }
    }
  }

  /** Windows that the search has passed are not findable. */
  lemma NothingPassed(src: bytes, out: bytes, base: nat, k: nat)
    requires 16 < |src| < 0x100_0000 && |out| < 0x100_0000 && base + k + 15 <= |out|
    requires forall j: nat :: j < k ==> Best(src, out, base, j).cnt == 0
    ensures forall n: nat :: n <= k + 15 && base + n <= |out| ==> NoneFindable(src, out, base, n)
  {
    hide Best, Findable;
    forall p: nat | base <= p < base + k
      ensures !Findable(src, out, p)
    {
      if Findable(src, out, p) {
        FindableIsFound(src, out, base, p - base);
      }
    }
  }

  lemma MatchIsTight(src: bytes, out: bytes, base: nat, m: Match, rest: seq<Command>)
    requires base + m.litsz + m.cnt <= |out| && NoneFindable(src, out, base, m.litsz)
    requires Tight(src, out, base + m.litsz + m.cnt, rest)
    ensures Tight(src, out, base, MatchCommands(out, base, m) + rest)
  {
    hide NoneFindable;
    var copy := Copy(m.cnt, m.ofst);
    assert ([copy] + rest)[1..] == rest;
    var text := out[base..base + m.litsz];
    if m.litsz > 0 {
      assert MatchCommands(out, base, m) + rest == [Insert(text)] + ([copy] + rest);
      assert ([Insert(text)] + ([copy] + rest))[1..] == [copy] + rest;
    } else {
      assert MatchCommands(out, base, m) + rest == [copy] + rest;
    }
  }

  /** The delta consists of commands that fit the source, give the target, and leave no findable window in a literal. */
  lemma EncodeIsTight(src: bytes, out: bytes) returns (cs: seq<Command>)
    requires |src| < 0x100_0000 && |out| < 0x100_0000
    ensures Encode(src, out) == Render(|out|, cs, Checksum(out))
    ensures AllFit(cs, src) && OutputAll(cs, src) == out
    ensures Tight(src, out, 0, cs)
  {
    hide Render, CommandsFrom, Checksum, Later;
    cs := Commands(src, out);
    if |src| <= 16 {
      RunOne(Insert(out), src);
    } else {
      CommandsReproduce(src, out, 0);
      CommandsAreTight(src, out, 0);
      assert out[0..] == out;
    }
  }

  // ---------- The program ----------

  method EmitInsert(text: bytes, z: array<byte>, n: nat) returns (n': nat)
    requires |text| < 0x1_0000_0000 && n + |Insert(text).Render()| <= z.Length
    modifies z
    ensures n' == n + |Insert(text).Render()|
    ensures z[..n'] == old(z[..n]) + Insert(text).Render()
  {
    hide Digits;
    n' := PutInt(|text|, z, n);
    n' := PutByte(':' as int, z, n');
    CopyBytes(text, z, n');
    n' := n' + |text|;
    Assoc(old(z[..n]), Digits(|text|), [':' as int]);
    Assoc(old(z[..n]), Digits(|text|) + [':' as int], text);
    Assoc(Digits(|text|), [':' as int], text);
  }

  method EmitCopy(cnt: nat, ofst: nat, z: array<byte>, n: nat) returns (n': nat)
    requires cnt < 0x1_0000_0000 && ofst < 0x1_0000_0000 && n + |Copy(cnt, ofst).Render()| <= z.Length
    modifies z
    ensures n' == n + |Copy(cnt, ofst).Render()|
    ensures z[..n'] == old(z[..n]) + Copy(cnt, ofst).Render()
  {
    hide Digits;
    n' := PutInt(cnt, z, n);
    n' := PutByte('@' as int, z, n');
    n' := PutInt(ofst, z, n');
    n' := PutByte(',' as int, z, n');
    Assoc(old(z[..n]), Digits(cnt), ['@' as int]);
    Assoc(old(z[..n]) + Digits(cnt), ['@' as int], Digits(ofst));
    Assoc(old(z[..n]) + Digits(cnt), ['@' as int] + Digits(ofst), [',' as int]);
    Assoc(['@' as int], Digits(ofst), [',' as int]);
    Assoc(old(z[..n]), Digits(cnt), ['@' as int] + (Digits(ofst) + [',' as int]));
  }

  /** The literal before a match and the copy. */
  method EmitMatch(out: bytes, base: nat, m: Match, z: array<byte>, n: nat) returns (n': nat)
    requires |out| < 0x1_0000_0000 && base + m.litsz <= |out|
    requires m.cnt < 0x1_0000_0000 && m.ofst < 0x1_0000_0000
    requires n + |RenderAll(MatchCommands(out, base, m))| <= z.Length
    modifies z
    ensures n' == n + |RenderAll(MatchCommands(out, base, m))|
    ensures z[..n'] == old(z[..n]) + RenderAll(MatchCommands(out, base, m))
  {
    hide Command.Render, RenderAll;
    ghost var copy := [Copy(m.cnt, m.ofst)];
    ghost var text := out[base..base + m.litsz];
    RenderOne(Copy(m.cnt, m.ofst));
    RenderOne(Insert(text));
    RenderConcat([Insert(text)], copy);
    assert [] + copy == copy;
    n' := n;
    if m.litsz > 0 {
      n' := EmitInsert(out[base..base + m.litsz], z, n');
      Assoc(old(z[..n]), Insert(text).Render(), Copy(m.cnt, m.ofst).Render());
    }
    n' := EmitCopy(m.cnt, m.ofst, z, n');
  }

  /** The inner loop: slide the window over the target until a match or the end. */
  method ScanTarget(src: bytes, out: bytes, base: nat, h: Hash, landmark: array<int>, collide: array<int>)
    returns (f: Found)
    requires 16 < |src| < 0x4000_0000 && base + 16 < |out| < 0x4000_0000
    requires h.z.Length == 16
    requires Table(src, landmark[..], collide[..], Blocks(src))
    modifies h, h.z
    ensures f == Scan(src, out, base, 0)
  {
    hide Best, WindowHash;
    h.Init(out, base);
    var i := 0;
    while true
      invariant 0 <= i && base + i + 16 <= |out|
      invariant h.Valid() && h.Window() == out[base + i..base + i + 16]
      invariant Scan(src, out, base, i) == Scan(src, out, base, 0)
      decreases |out| - i
    {
      var hash := h.Hash32();
      var hv := hash % Buckets(src);
      var best := FindBest(src, out, base, i, hv, landmark, collide);
      if best.cnt > 0 {
        return Hit(best);
      }
      if base + i + 16 >= |out| {
        return EndOfTarget;
      }
      h.Next(out[base + i + 16]);
      assert out[base + i..base + i + 16][1..] + [out[base + i + 16]] == out[base + i + 1..base + i + 17];
      i := i + 1;
    }
  }

  /** What has been written and what is still to come make up header and commands. */
  ghost predicate OnTrack(src: bytes, out: bytes, base: nat, written: bytes)
    requires |src| > 16
  {
    && base <= |out|
    && written + RenderAll(CommandsFrom(src, out, base))
    == Digits(|out|) + ['\n' as int] + RenderAll(CommandsFrom(src, out, 0))
  }

  lemma MatchStep(src: bytes, out: bytes, base: nat, written: bytes)
    requires 16 < |src| && base + 16 < |out| && OnTrack(src, out, base, written)
    ensures var f := Scan(src, out, base, 0);
      match f
      case Hit(m) =>
        && Sound(src, out, base, m) && m.cnt > 0
        && OnTrack(src, out, base + m.litsz + m.cnt, written + RenderAll(MatchCommands(out, base, m)))
        && |RenderAll(MatchCommands(out, base, m))| <= |RenderAll(CommandsFrom(src, out, base))|
      case EndOfTarget =>
        OnTrack(src, out, |out|, written + Insert(out[base..]).Render())
        && RenderAll(CommandsFrom(src, out, base)) == Insert(out[base..]).Render()
  {
    hide Scan, MatchCommands, Pays, Digits, RenderAll, Command.Render;
    ScanIsSound(src, out, base, 0);
    match Scan(src, out, base, 0) {
      case Hit(m) =>
        var (cs, rest) := (MatchCommands(out, base, m), CommandsFrom(src, out, base + m.litsz + m.cnt));
        RenderConcat(cs, rest);
        Assoc(written, RenderAll(cs), RenderAll(rest));
      case EndOfTarget =>
        LastInsert(src, out, base, written);
    }
  }

  lemma LastInsert(src: bytes, out: bytes, base: nat, written: bytes)
    requires 16 < |src| && OnTrack(src, out, base, written)
    requires CommandsFrom(src, out, base) == [Insert(out[base..])]
    ensures OnTrack(src, out, |out|, written + Insert(out[base..]).Render())
    ensures RenderAll(CommandsFrom(src, out, base)) == Insert(out[base..]).Render()
  {
    hide Digits, RenderAll, Command.Render;
    RenderOne(Insert(out[base..]));
    RenderNone();
    var s := written + Insert(out[base..]).Render();
    assert s + [] == s;
  }

  /** The buffer never gets too small: at most |out| + 12 bytes stand before the checksum. */
  lemma Room(src: bytes, out: bytes, base: nat, written: bytes)
    requires 16 < |src| && |out| < 0x4000_0000 && OnTrack(src, out, base, written)
    ensures |written| + |RenderAll(CommandsFrom(src, out, base))| <= |out| + 12
  {
    hide Digits, RenderAll, CommandsFrom;
    DigitsWidth(|out|);
    CommandsLength(src, out, 0);
  }

  method EmitChecksum(out: bytes, z: array<byte>, n: nat) returns (n': nat)
    requires n + 7 <= z.Length
    modifies z
    ensures n' <= n + 7 && n' <= z.Length
    ensures z[..n'] == old(z[..n]) + (Digits(Checksum(out)) + [';' as int])
  {
    hide Digits, Checksum;
    DigitsWidth(Checksum(out));
    var sum := ChecksumByWord(out);
    n' := PutInt(sum, z, n);
    n' := PutByte(';' as int, z, n');
    Assoc(old(z[..n]), Digits(sum), [';' as int]);
  }

  lemma EncodeParts(src: bytes, out: bytes)
    ensures Encode(src, out) == Digits(|out|) + ['\n' as int] + RenderAll(Commands(src, out))
                              + (Digits(Checksum(out)) + [';' as int])
  {
    hide Digits, Checksum, Commands, RenderAll;
    var end := Digits(Checksum(out)) + [';' as int];
    Assoc(Digits(|out|), ['\n' as int], RenderAll(Commands(src, out)) + end);
    Assoc(Digits(|out|) + ['\n' as int], RenderAll(Commands(src, out)), end);
  }

  /** The first branch: a source of at most one window is never copied from. */
  method CreateLiteral(src: bytes, out: bytes, z: array<byte>, n0: nat) returns (n: nat)
    requires |src| <= 16 && |out| < 0x4000_0000
    requires z.Length >= |out| + 60 && n0 <= z.Length && z[..n0] == Digits(|out|) + ['\n' as int]
    modifies z
    ensures n <= z.Length && z[..n] == Encode(src, out)
  {
    hide Digits, Checksum, Command.Render, RenderAll, Encode;
    DigitsWidth(|out|);
    InsertLength(out);
    n := EmitInsert(out, z, n0);
    n := EmitChecksum(out, z, n);
    RenderOne(Insert(out));
    EncodeParts(src, out);
  }

  /** The main loop: everything before out[base] has been generated. */
  method CreateCommands(src: bytes, out: bytes, z: array<byte>, n0: nat) returns (n: nat)
    requires 16 < |src| < 0x4000_0000 && |out| < 0x4000_0000
    requires z.Length >= |out| + 60 && n0 <= z.Length && z[..n0] == Digits(|out|) + ['\n' as int]
    modifies z
    ensures n <= |out| + 12
    ensures z[..n] == Digits(|out|) + ['\n' as int] + RenderAll(Commands(src, out))
  {
    hide Digits, Command.Render, RenderAll, CommandsFrom, MatchCommands, Scan;
    var collide := new int[Buckets(src)](_ => -1);
    var landmark := new int[Buckets(src)](_ => -1);
    BuildTable(src, landmark, collide);
    var h := new Hash();
    var base := 0;
    n := n0;
    Room(src, out, 0, z[..n]);
    while base + 16 < |out|
      invariant 0 <= base <= |out| && n <= |out| + 12 && OnTrack(src, out, base, z[..n])
      invariant Table(src, landmark[..], collide[..], Blocks(src))
    {
      MatchStep(src, out, base, z[..n]);
      Room(src, out, base, z[..n]);
      var f := ScanTarget(src, out, base, h, landmark, collide);
      match f {
        case Hit(m) =>
          n := EmitMatch(out, base, m, z, n);
          base := base + m.litsz + m.cnt;
        case EndOfTarget =>
          n := EmitInsert(out[base..], z, n);
          base := |out|;
      }
      Room(src, out, base, z[..n]);
    }
    if base < |out| {
      TailCommands(src, out, base);
      LastInsert(src, out, base, z[..n]);
      Room(src, out, base, z[..n]);
      n := EmitInsert(out[base..], z, n);
      Room(src, out, |out|, z[..n]);
    }
    TailCommands(src, out, |out|);
    RenderNone();
    assert z[..n] + [] == z[..n];
  }

  lemma TailCommands(src: bytes, out: bytes, base: nat)
    requires |src| > 16 && base <= |out| <= base + 16
    ensures CommandsFrom(src, out, base) == if base < |out| then [Insert(out[base..])] else []
  {
  }

  /** delta_create: the delta is written to the front of `z`, its length returned. */
  method DeltaCreate(src: bytes, out: bytes, z: array<byte>) returns (n: nat)
    requires |src| < 0x4000_0000 && |out| < 0x4000_0000
    requires z.Length >= |out| + 60
    modifies z
    ensures n <= |out| + 19
    ensures z[..n] == Encode(src, out)
  {
    hide Digits, Encode, Checksum;
    DigitsWidth(|out|);
    EncodeLength(src, out);
    n := PutInt(|out|, z, 0);
    assert z[..n] == Digits(|out|);
    n := PutByte('\n' as int, z, n);
    if |src| <= 16 {
      n := CreateLiteral(src, out, z, n);
    } else {
      n := CreateCommands(src, out, z, n);
      n := EmitChecksum(out, z, n);
      EncodeParts(src, out);
    }
  }

  /** The SQL function delta_create(X, Y): the buffer it allocates is large enough. */
  method DeltaCreateFunc(src: bytes, out: bytes) returns (delta: bytes)
    requires |src| < 0x4000_0000 && |out| < 0x4000_0000
    ensures delta == Encode(src, out)
  {
    var aOut := new byte[|out| + 70];
    var nOut := DeltaCreate(src, out, aOut);
    delta := aOut[..nOut];
  }
}
