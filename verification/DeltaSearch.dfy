/** The search for source blocks: hash table, collision chains, matches (ext/fossildelta.c:352-450). */
module DeltaSearch {
  import opened Bytes
  import opened Base64
  import opened RollingHash

  // ---------- The sampled blocks and their chains ----------

  /** Number of buckets; only sources longer than one window get a table. */
  function Buckets(src: bytes): nat
    requires |src| > 16
  {
    |src| / 16
  }

  /** Block b is the 16 bytes at 16*b; a block that ends with the source is not sampled. */
  function Blocks(src: bytes): (n: nat)
    requires |src| > 16
    ensures n <= Buckets(src)
    ensures forall b: nat :: b < n <==> 16 * b < |src| - 16
  {
    (|src| - 1) / 16
  }

  function Bucket(src: bytes, w: bytes): (hv: nat)
    requires |src| > 16
    ensures hv < Buckets(src)
  {
    WindowHash(w) % Buckets(src)
  }

  function BlockBucket(src: bytes, b: nat): (hv: nat)
    requires |src| > 16 && b < Blocks(src)
    ensures hv < Buckets(src)
  {
    Bucket(src, src[16 * b..16 * b + 16])
  }

  /** The blocks below `n` in bucket `hv`, latest first. */
  function Chain(src: bytes, hv: nat, n: nat): seq<nat>
    requires |src| > 16 && n <= Blocks(src)
  {
    if n == 0 then [] else (if BlockBucket(src, n - 1) == hv then [n - 1] else []) + Chain(src, hv, n - 1)
  }

  /** A chain lists exactly the sampled blocks of its bucket, each once, in strictly decreasing order. */
  lemma {:induction false} ChainListsBucket(src: bytes, hv: nat, n: nat)
    requires |src| > 16 && n <= Blocks(src)
    ensures forall b: nat :: b in Chain(src, hv, n) <==> b < n && BlockBucket(src, b) == hv
    ensures forall j, k :: 0 <= j < k < |Chain(src, hv, n)| ==> Chain(src, hv, n)[j] > Chain(src, hv, n)[k]
  {
    if n > 0 {
      ChainListsBucket(src, hv, n - 1);
      var rest := Chain(src, hv, n - 1);
      assert forall j :: 0 <= j < |rest| ==> rest[j] in rest;
    }
  }

  /** Following `collide` from `start` visits exactly the blocks of `ch` and ends at -1. */
  predicate Links(collide: seq<int>, start: int, ch: seq<nat>)
    decreases |ch|
  {
    if ch == [] then start == -1
    else start == ch[0] < |collide| && Links(collide, collide[start], ch[1..])
  }

  ghost predicate BucketHolds(src: bytes, landmark: seq<int>, collide: seq<int>, n: nat, hv: nat)
    requires |src| > 16 && n <= Blocks(src) && hv < |landmark|
  {
    Links(collide, landmark[hv], Chain(src, hv, n))
  }

  /** The table holding the first `n` blocks. */
  ghost predicate Table(src: bytes, landmark: seq<int>, collide: seq<int>, n: nat)
    requires |src| > 16 && n <= Blocks(src)
  {
    && |landmark| == |collide| == Buckets(src)
    && forall hv: nat :: hv < Buckets(src) ==> BucketHolds(src, landmark, collide, n, hv)
  }

  lemma {:induction false} LinksFrame(collide: seq<int>, n: nat, v: int, start: int, ch: seq<nat>)
    requires n < |collide| && Links(collide, start, ch)
    requires forall j :: 0 <= j < |ch| ==> ch[j] < n
    ensures Links(collide[n := v], start, ch)
    decreases |ch|
  {
    if ch != [] {
      LinksFrame(collide, n, v, collide[start], ch[1..]);
    }
  }

  /** Putting block `n` at the head of its bucket's chain. */
  lemma TableInsert(src: bytes, landmark: seq<int>, collide: seq<int>, n: nat)
    requires |src| > 16 && n < Blocks(src)
    requires Table(src, landmark, collide, n)
    ensures var hv := BlockBucket(src, n);
      Table(src, landmark[hv := n], collide[n := landmark[hv]], n + 1)
  {
    hide BucketHolds, BlockBucket;
    var h := BlockBucket(src, n);
    var landmark', collide', n' := landmark[h := n], collide[n := landmark[h]], n + 1;
    forall hv: nat | hv < Buckets(src)
      ensures BucketHolds(src, landmark', collide', n', hv)
    {
      assert BucketHolds(src, landmark, collide, n, hv);
      BucketInsert(src, landmark, collide, n, hv);
    }
  }

  lemma BucketInsert(src: bytes, landmark: seq<int>, collide: seq<int>, n: nat, hv: nat)
    requires |src| > 16 && n < Blocks(src) && |landmark| == |collide| == Buckets(src)
    requires hv < Buckets(src) && BucketHolds(src, landmark, collide, n, hv)
    ensures var h := BlockBucket(src, n);
      BucketHolds(src, landmark[h := n], collide[n := landmark[h]], n + 1, hv)
  {
    hide BlockBucket, Chain, Links;
    var h := BlockBucket(src, n);
    var ch := Chain(src, hv, n);
    ChainBelow(src, hv, n);
    ChainStep(src, hv, n);
    LinksFrame(collide, n, landmark[h], landmark[hv], ch);
    if hv == h {
      LinksCons(collide[n := landmark[h]], n, ch);
    }
  }

  lemma ChainBelow(src: bytes, hv: nat, n: nat)
    requires |src| > 16 && n <= Blocks(src)
    ensures forall j :: 0 <= j < |Chain(src, hv, n)| ==> Chain(src, hv, n)[j] < n
  {
    hide Chain, BlockBucket;
    ChainListsBucket(src, hv, n);
    var ch := Chain(src, hv, n);
    assert forall j :: 0 <= j < |ch| ==> ch[j] in ch;
  }

  lemma ChainStep(src: bytes, hv: nat, n: nat)
    requires |src| > 16 && n < Blocks(src)
    ensures Chain(src, hv, n + 1)
         == if BlockBucket(src, n) == hv then [n] + Chain(src, hv, n) else Chain(src, hv, n)
  {
    assert [] + Chain(src, hv, n) == Chain(src, hv, n);
  }

  lemma LinksCons(collide: seq<int>, b: nat, ch: seq<nat>)
    requires b < |collide| && Links(collide, collide[b], ch)
    ensures Links(collide, b, [b] + ch)
  {
    assert ([b] + ch)[1..] == ch;
  }

  lemma EmptyTable(src: bytes, landmark: seq<int>, collide: seq<int>)
    requires |src| > 16 && |landmark| == |collide| == Buckets(src)
    requires forall k :: 0 <= k < |landmark| ==> landmark[k] == -1
    ensures Table(src, landmark, collide, 0)
  {
  }

  lemma BlockBucketAt(src: bytes, b: nat)
    requires |src| > 16 && b < Blocks(src)
    ensures 16 * b + 16 <= |src| && BlockBucket(src, b) == WindowHash(src[16 * b..16 * b + 16]) % Buckets(src)
  {
  }

  /** The loop over the source that fills `landmark` and `collide`. */
  method BuildTable(src: bytes, landmark: array<int>, collide: array<int>)
    requires |src| > 16
    requires landmark != collide && landmark.Length == collide.Length == Buckets(src)
    requires forall k :: 0 <= k < landmark.Length ==> landmark[k] == -1
    modifies landmark, collide
    ensures Table(src, landmark[..], collide[..], Blocks(src))
  {
    hide WindowHash, BucketHolds, Table, BlockBucket, Blocks, Buckets;
    EmptyTable(src, landmark[..], collide[..]);
    var i := 0;
    ghost var n := 0;
    while i < |src| - 16
      invariant i == 16 * n && n <= Blocks(src)
      invariant Table(src, landmark[..], collide[..], n)
      decreases |src| - i
    {
      BlockBucketAt(src, n);
      var h := HashOnce(src, i);
      var hv := h % Buckets(src);
      TableInsert(src, landmark[..], collide[..], n);
      StorePair(landmark, collide, hv, i / 16);
      i, n := i + 16, n + 1;
    }
  }

  /** Pushing `b` on the front of the chain that starts at landmark[hv]. */
  method StorePair(landmark: array<int>, collide: array<int>, hv: nat, b: nat)
    requires landmark != collide && hv < landmark.Length && b < collide.Length
    modifies landmark, collide
    ensures landmark[..] == old(landmark[..])[hv := b]
    ensures collide[..] == old(collide[..])[b := old(landmark[..])[hv]]
  {
    collide[b] := landmark[hv];
    landmark[hv] := b;
  }

  /** A copy that may be emitted: `cnt` bytes from source offset `ofst`, after `litsz` literal bytes. */
  datatype Match = Match(cnt: nat, ofst: nat, litsz: nat)

  const NO_MATCH := Match(0, 0, 0)

  /** Length of the longest common run from src[x] and out[y] on. */
  function Forward(src: bytes, x: nat, out: bytes, y: nat): (n: nat)
    requires x <= |src| && y <= |out|
    ensures x + n <= |src| && y + n <= |out| && src[x..x + n] == out[y..y + n]
    ensures x + n == |src| || y + n == |out| || src[x + n] != out[y + n]
    decreases |src| - x
  {
    if x < |src| && y < |out| && src[x] == out[y] then
      var n := Forward(src, x + 1, out, y + 1);
      assert src[x..x + 1 + n] == [src[x]] + src[x + 1..x + 1 + n];
      assert out[y..y + 1 + n] == [out[y]] + out[y + 1..y + 1 + n];
      1 + n
    else 0
  }

  /** Length of the common run that ends before src[x] and out[y]; at most `i` long, and never
    * reaching the first byte of the source. */
  function Backward(src: bytes, x: nat, out: bytes, y: nat, i: nat): (n: nat)
    requires x <= |src| && i <= y <= |out|
    ensures n <= i && n <= x && src[x - n..x] == out[y - n..y]
    decreases i
  {
    if x > 1 && i > 0 && src[x - 1] == out[y - 1] then
      var n := Backward(src, x - 1, out, y - 1, i - 1);
      assert src[x - 1 - n..x] == src[x - 1 - n..x - 1] + [src[x - 1]];
      assert out[y - 1 - n..y] == out[y - 1 - n..y - 1] + [out[y - 1]];
      1 + n
    else 0
  }

  lemma BackwardUnfold(src: bytes, x: nat, out: bytes, y: nat, i: nat)
    requires x <= |src| && i <= y <= |out|
    ensures Backward(src, x, out, y, i)
         == if x > 1 && i > 0 && src[x - 1] == out[y - 1] then 1 + Backward(src, x - 1, out, y - 1, i - 1) else 0
  {
  }

  /** It cannot be made longer. */
  lemma {:induction false} BackwardIsMaximal(src: bytes, x: nat, out: bytes, y: nat, i: nat)
    requires x <= |src| && i <= y <= |out|
    ensures var n := Backward(src, x, out, y, i);
      n == i || x - n <= 1 || src[x - n - 1] != out[y - n - 1]
    decreases i
  {
    hide Backward;
    BackwardUnfold(src, x, out, y, i);
    if x > 1 && i > 0 && src[x - 1] == out[y - 1] {
      BackwardIsMaximal(src, x - 1, out, y - 1, i - 1);
    }
  }

  /** The match anchored at block `b` and target position base + i. */
  function Candidate(src: bytes, out: bytes, base: nat, i: nat, b: nat): Match
    requires 16 * b <= |src| && base + i <= |out|
  {
    var k := Backward(src, 16 * b, out, base + i, i);
    Match(Forward(src, 16 * b, out, base + i) + k, 16 * b - k, i - k)
  }

  /** What a match must satisfy for its copy command to reproduce the target. */
  predicate Sound(src: bytes, out: bytes, base: nat, m: Match) {
    && m.ofst + m.cnt <= |src|
    && base + m.litsz + m.cnt <= |out|
    && src[m.ofst..m.ofst + m.cnt] == out[base + m.litsz..base + m.litsz + m.cnt]
  }

  lemma CandidateIsSound(src: bytes, out: bytes, base: nat, i: nat, b: nat)
    requires 16 * b <= |src| && base + i <= |out|
    ensures Sound(src, out, base, Candidate(src, out, base, i, b))
  {
    var x, y := 16 * b, base + i;
    hide Backward, Forward;
    Glue(src, x, out, y, Backward(src, x, out, y, i), Forward(src, x, out, y));
  }

  /** The match contains its anchor and cannot be made longer: not at its end, and not at its front unless it reached
    * into what has been emitted or to the first byte of the source. */
  lemma CandidateIsMaximal(src: bytes, out: bytes, base: nat, i: nat, b: nat)
    requires 16 * b <= |src| && base + i <= |out|
    ensures var m := Candidate(src, out, base, i, b);
      var x, y := m.ofst, base + m.litsz;
      && x <= 16 * b <= x + m.cnt && 16 * b - x == base + i - y
      && (x + m.cnt == |src| || y + m.cnt == |out| || src[x + m.cnt] != out[y + m.cnt])
      && (y == base || x <= 1 || src[x - 1] != out[y - 1])
  {
    hide Backward, Forward;
    BackwardIsMaximal(src, 16 * b, out, base + i, i);
  }

  lemma Glue(s: bytes, x: nat, t: bytes, y: nat, k: nat, n: nat)
    requires k <= x && x + n <= |s| && k <= y && y + n <= |t|
    requires s[x - k..x] == t[y - k..y] && s[x..x + n] == t[y..y + n]
    ensures s[x - k..x + n] == t[y - k..y + n]
  {
    assert s[x - k..x + n] == s[x - k..x] + s[x..x + n];
    assert t[y - k..y + n] == t[y - k..y] + t[y..y + n];
  }

  /** Bytes taken by the literal and the copy command of a match, not counting the literal text. */
  function Overhead(m: Match): nat {
    |Digits(m.litsz)| + |Digits(m.cnt)| + |Digits(m.ofst)| + 3
  }

  predicate Pays(m: Match) {
    m.cnt >= Overhead(m)
  }

  function Better(best: Match, m: Match): Match {
    if Pays(m) && m.cnt > best.cnt then m else best
  }

  /** The best match among the blocks of `ch`, tried in this order, starting from `best`. */
  function BestOf(src: bytes, out: bytes, base: nat, i: nat, ch: seq<nat>, best: Match): Match
    requires base + i <= |out|
    requires forall j :: 0 <= j < |ch| ==> 16 * ch[j] <= |src|
  {
    if ch == [] then best
    else BestOf(src, out, base, i, ch[1..], Better(best, Candidate(src, out, base, i, ch[0])))
  }

  /** The blocks tried for the window at `y`: the first 250 of its bucket's chain. */
  function Tried(src: bytes, out: bytes, y: nat): (ch: seq<nat>)
    requires |src| > 16 && y + 16 <= |out|
    ensures forall j :: 0 <= j < |ch| ==> 16 * ch[j] <= |src|
  {
    var ch := Chain(src, Bucket(src, out[y..y + 16]), Blocks(src));
    ChainListsBucket(src, Bucket(src, out[y..y + 16]), Blocks(src));
    assert forall j :: 0 <= j < |ch| ==> ch[j] in ch;
    ch[..Min(250, |ch|)]
  }

  /** The window at 16 * b falls into the same bucket as `w`. */
  predicate SameBucket(src: bytes, w: bytes, b: nat) {
    16 * b + 16 <= |src| && WindowHash(src[16 * b..16 * b + 16]) % (|src| / 16) == WindowHash(w) % (|src| / 16)
  }

  /** The sampled blocks behind `b` in the bucket of `w`. */
  function Later(src: bytes, w: bytes, b: nat): set<nat> {
    set b': nat | b < b' < |src| && 16 * b' < |src| - 16 && SameBucket(src, w, b')
  }

  /** What the search for `w` looks at: sampled blocks with fewer than 250 later ones in their bucket. */
  predicate InReach(src: bytes, w: bytes, b: nat) {
    16 * b < |src| - 16 && SameBucket(src, w, b) && |Later(src, w, b)| < 250
  }

  /** The blocks tried are exactly those in reach, the latest ones first. */
  lemma TriedExactly(src: bytes, out: bytes, y: nat)
    requires |src| > 16 && y + 16 <= |out|
    ensures var ch, w := Tried(src, out, y), out[y..y + 16];
      && (forall b: nat :: b in ch <==> InReach(src, w, b))
      && forall j, k :: 0 <= j < k < |ch| ==> ch[j] > ch[k]
  {
    var w := out[y..y + 16];
    var hv := Bucket(src, w);
    var ch := Chain(src, hv, Blocks(src));
    ChainListsBucket(src, hv, Blocks(src));
    hide Chain, WindowHash, Later;
    var tried := Tried(src, out, y);
    assert tried == ch[..Min(250, |ch|)];
    forall b: nat
      ensures b in tried <==> InReach(src, w, b)
    {
      assert b in ch <==> 16 * b < |src| - 16 && SameBucket(src, w, b);
      if b in ch {
        var j :| 0 <= j < |ch| && ch[j] == b;
        LaterOnes(src, w, ch, j);
        assert b in tried <==> j < 250;
      }
    }
  }

  /** In a decreasing list of all sampled blocks of a bucket, those behind the j-th one are the first j. */
  lemma LaterOnes(src: bytes, w: bytes, ch: seq<nat>, j: nat)
    requires |src| > 16 && j < |ch| && forall i, k :: 0 <= i < k < |ch| ==> ch[i] > ch[k]
    requires forall b: nat :: b in ch <==> 16 * b < |src| - 16 && SameBucket(src, w, b)
    ensures |Later(src, w, ch[j])| == j
  {
    hide SameBucket;
    FrontIsDistinct(ch, j);
    var front := set k | 0 <= k < j :: ch[k];
    forall b: nat
      ensures b in Later(src, w, ch[j]) <==> b in front
    {
      if b in Later(src, w, ch[j]) {
        assert b in ch;
        var k :| 0 <= k < |ch| && ch[k] == b;
        assert k < j;
      }
      if b in front {
        var k :| 0 <= k < j && ch[k] == b;
        assert ch[k] in ch;
      }
    }
    assert Later(src, w, ch[j]) == front;
  }

  lemma {:induction false} FrontIsDistinct(ch: seq<nat>, j: nat)
    requires j <= |ch| && forall i, k :: 0 <= i < k < |ch| ==> ch[i] > ch[k]
    ensures |set k | 0 <= k < j :: ch[k]| == j
    decreases j
  {
    if j > 0 {
      FrontIsDistinct(ch, j - 1);
      assert (set k | 0 <= k < j :: ch[k]) == (set k | 0 <= k < j - 1 :: ch[k]) + {ch[j - 1]};
    }
  }

  function Best(src: bytes, out: bytes, base: nat, i: nat): Match
    requires |src| > 16 && base + i + 16 <= |out|
  {
    BestOf(src, out, base, i, Tried(src, out, base + i), NO_MATCH)
  }

  /** The j-th block of `ch` gives a paying match `m`. */
  ghost predicate PaysAt(src: bytes, out: bytes, base: nat, i: nat, ch: seq<nat>, j: nat, m: Match)
    requires base + i <= |out| && j < |ch| && 16 * ch[j] <= |src|
  {
    m == Candidate(src, out, base, i, ch[j]) && Pays(m)
  }

  /** The result of the search is at least as long as every paying candidate. */
  lemma {:induction false} BestOfIsLongest(src: bytes, out: bytes, base: nat, i: nat, ch: seq<nat>, best: Match)
    requires base + i <= |out|
    requires forall j :: 0 <= j < |ch| ==> 16 * ch[j] <= |src|
    ensures BestOf(src, out, base, i, ch, best).cnt >= best.cnt
    ensures forall j: nat, m :: j < |ch| && PaysAt(src, out, base, i, ch, j, m) ==>
              BestOf(src, out, base, i, ch, best).cnt >= m.cnt
    decreases |ch|
  {
    hide Candidate, Pays;
    if ch != [] {
      var best' := Better(best, Candidate(src, out, base, i, ch[0]));
      BetterIsLonger(best, Candidate(src, out, base, i, ch[0]));
      BestOfIsLongest(src, out, base, i, ch[1..], best');
      forall j: nat, m | j < |ch| && PaysAt(src, out, base, i, ch, j, m)
        ensures BestOf(src, out, base, i, ch, best).cnt >= m.cnt
      {
        if j > 0 {
          assert PaysAt(src, out, base, i, ch[1..], j - 1, m);
        }
      }
    }
  }

  lemma BetterIsLonger(best: Match, m: Match)
    ensures Better(best, m).cnt >= best.cnt
    ensures Pays(m) ==> Better(best, m).cnt >= m.cnt
    ensures Better(best, m) == best || (Better(best, m) == m && Pays(m) && m.cnt > best.cnt)
  {
  }

  /** The result of the search is the first one of its length: it comes from a paying candidate that is
    * longer than everything before it. */
  lemma {:induction false} BestOfIsFirst(src: bytes, out: bytes, base: nat, i: nat, ch: seq<nat>, best: Match)
    returns (at: nat)
    requires base + i <= |out|
    requires forall j :: 0 <= j < |ch| ==> 16 * ch[j] <= |src|
    requires BestOf(src, out, base, i, ch, best) != best
    ensures var r := BestOf(src, out, base, i, ch, best);
      && at < |ch| && PaysAt(src, out, base, i, ch, at, r) && r.cnt > best.cnt
      && forall j: nat, m :: j < at && PaysAt(src, out, base, i, ch, j, m) ==> m.cnt < r.cnt
    decreases |ch|
  {
    hide Candidate, Pays;
    var r := BestOf(src, out, base, i, ch, best);
    var first := Candidate(src, out, base, i, ch[0]);
    var best' := Better(best, first);
    BetterIsLonger(best, first);
    if r == best' {
      at := 0;
    } else {
      var at' := BestOfIsFirst(src, out, base, i, ch[1..], best');
      at := at' + 1;
      forall j: nat, m | j < at && PaysAt(src, out, base, i, ch, j, m)
        ensures m.cnt < r.cnt
      {
        if j > 0 {
          assert PaysAt(src, out, base, i, ch[1..], j - 1, m);
        }
      }
    }
  }

  /** A match that was found is sound and pays for its commands. */
  lemma BestIsSound(src: bytes, out: bytes, base: nat, i: nat)
    requires |src| > 16 && base + i + 16 <= |out|
    ensures var m := Best(src, out, base, i);
      m.cnt > 0 ==> Sound(src, out, base, m) && Pays(m) && m.litsz <= i
  {
    hide Tried, Backward, Forward, Digits;
    var ch := Tried(src, out, base + i);
    if Best(src, out, base, i).cnt > 0 {
      var j := BestOfIsFirst(src, out, base, i, ch, NO_MATCH);
      CandidateIsSound(src, out, base, i, ch[j]);
    }
  }

  /** Block `b` is in reach of the window at base + i, and its match `m` pays. */
  ghost predicate Offers(src: bytes, out: bytes, base: nat, i: nat, b: nat, m: Match)
    requires base + i + 16 <= |out|
  {
    InReach(src, out[base + i..base + i + 16], b) && m == Candidate(src, out, base, i, b) && Pays(m)
  }

  /** What the search finds: nothing exactly if no block in reach pays, and otherwise the longest match of all blocks
    * in reach that pay, the one of the latest block if several are as long. */
  lemma BestExactly(src: bytes, out: bytes, base: nat, i: nat)
    requires |src| > 16 && base + i + 16 <= |out|
    ensures var r := Best(src, out, base, i);
      if r == NO_MATCH then forall b: nat, m :: !Offers(src, out, base, i, b, m)
      else exists b: nat :: Offers(src, out, base, i, b, r)
             && forall b': nat, m :: Offers(src, out, base, i, b', m) ==> m.cnt < r.cnt || (m.cnt == r.cnt && b' <= b)
  {
    hide Tried, Backward, Forward, BestOf, Candidate, InReach, Pays;
    var ch, r := Tried(src, out, base + i), Best(src, out, base, i);
    TriedExactly(src, out, base + i);
    BestOfIsLongest(src, out, base, i, ch, NO_MATCH);
    NothingPaysNothing();
    forall b: nat, m | Offers(src, out, base, i, b, m)
      ensures m.cnt <= r.cnt && m.cnt > 0
    {
      var j :| 0 <= j < |ch| && ch[j] == b;
      assert PaysAt(src, out, base, i, ch, j, m);
    }
    if r != NO_MATCH {
      var at := BestOfIsFirst(src, out, base, i, ch, NO_MATCH);
      assert Offers(src, out, base, i, ch[at], r);
      forall b': nat, m | Offers(src, out, base, i, b', m) && m.cnt == r.cnt
        ensures b' <= ch[at]
      {
        var j :| 0 <= j < |ch| && ch[j] == b';
        assert PaysAt(src, out, base, i, ch, j, m);
      }
    }
  }

  lemma NothingPaysNothing()
    ensures forall m :: Pays(m) ==> m.cnt > 0
  {
  }

  lemma EqualIsInReach(src: bytes, w: bytes, b: nat)
    requires 16 * b < |src| - 16 && src[16 * b..16 * b + 16] == w && |Later(src, w, b)| < 250
    ensures InReach(src, w, b)
  {
  }

  /** The search misses nothing up to the chain limit: when the target window equals a sampled block with fewer than
    * 250 later ones in its bucket, a match of at least 16 bytes is found. */
  lemma WindowIsFound(src: bytes, out: bytes, base: nat, i: nat, b: nat)
    requires 16 < |src| < 0x100_0000 && |out| < 0x100_0000
    requires base + i + 16 <= |out| && 16 * b < |src| - 16
    requires src[16 * b..16 * b + 16] == out[base + i..base + i + 16]
    requires |Later(src, out[base + i..base + i + 16], b)| < 250
    ensures Best(src, out, base, i).cnt >= 16
  {
    hide Tried, Backward, Forward, Digits, BestOf, Later, InReach;
    var ch := Tried(src, out, base + i);
    TriedExactly(src, out, base + i);
    EqualIsInReach(src, out[base + i..base + i + 16], b);
    assert b in ch;
    var m := Candidate(src, out, base, i, b);
    CandidateIsSound(src, out, base, i, b);
    BestOfIsLongest(src, out, base, i, ch, NO_MATCH);
    LongRun(src, 16 * b, out, base + i, 16);
    DigitsWidth(m.litsz);
    DigitsWidth(m.cnt);
    DigitsWidth(m.ofst);
    var j :| 0 <= j < |ch| && ch[j] == b;
    assert PaysAt(src, out, base, i, ch, j, m);
  }

  lemma {:induction false} LongRun(src: bytes, x: nat, out: bytes, y: nat, n: nat)
    requires x + n <= |src| && y + n <= |out| && src[x..x + n] == out[y..y + n]
    ensures Forward(src, x, out, y) >= n
    decreases n
  {
    if n > 0 {
      assert src[x] == src[x..x + n][0] && out[y] == out[y..y + n][0];
      assert src[x + 1..x + n] == src[x..x + n][1..] && out[y + 1..y + n] == out[y..y + n][1..];
      LongRun(src, x + 1, out, y + 1, n - 1);
    }
  }

  // ---------- The search as the program runs it ----------

  lemma ForwardUnfold(src: bytes, x: nat, out: bytes, y: nat)
    requires x <= |src| && y <= |out|
    ensures Forward(src, x, out, y)
         == if x < |src| && y < |out| && src[x] == out[y] then 1 + Forward(src, x + 1, out, y + 1) else 0
  {
  }

  method MatchForward(src: bytes, x0: nat, out: bytes, y0: nat) returns (n: nat)
    requires x0 <= |src| && y0 <= |out|
    ensures n == Forward(src, x0, out, y0)
  {
    hide Forward;
    var x, y := x0, y0;
    var limitX := if |src| - x0 <= |out| - y0 then |src| else x0 + |out| - y0;
    while x < limitX && src[x] == out[y]
      invariant x0 <= x <= limitX && y - y0 == x - x0
      invariant Forward(src, x0, out, y0) == x - x0 + Forward(src, x, out, y)
    {
      ForwardUnfold(src, x, out, y);
      x, y := x + 1, y + 1;
    }
    ForwardUnfold(src, x, out, y);
    n := x - x0;
  }

  method MatchBackward(src: bytes, x: nat, out: bytes, y: nat, i: nat) returns (n: nat)
    requires x <= |src| && i <= y <= |out|
    ensures n == Backward(src, x, out, y, i)
  {
    hide Backward;
    var k := 1;
    ghost var x', y', i' := x, y, i;
    BackwardUnfold(src, x', out, y', i');
    while k < x && k <= i && src[x - k] == out[y - k]
      invariant 1 <= k <= i + 1 && k <= Max(x, 1)
      invariant x' == x - (k - 1) && y' == y - (k - 1) && i' == i - (k - 1) && i' <= y'
      invariant Backward(src, x, out, y, i) == k - 1 + Backward(src, x', out, y', i')
      decreases i + 1 - k
    {
      BackwardUnfold(src, x', out, y', i');
      k, x', y', i' := k + 1, x' - 1, y' - 1, i' - 1;
    }
    BackwardUnfold(src, x', out, y', i');
    n := k - 1;
  }

  /** The body of the loop over a chain: compare block `b` and keep the better match. */
  method TryBlock(src: bytes, out: bytes, base: nat, i: nat, b: nat, best: Match) returns (best': Match)
    requires 16 * b <= |src| < 0x4000_0000 && base + i <= |out| < 0x4000_0000
    ensures best' == Better(best, Candidate(src, out, base, i, b))
  {
    hide Digits, Backward, Forward;
    var iSrc := b * 16;
    var n := MatchForward(src, iSrc, out, base + i);
    var k := MatchBackward(src, iSrc, out, base + i, i);
    var ofst, cnt, litsz := iSrc - k, n + k, i - k;
    CandidateIsSound(src, out, base, i, b);
    var d1 := DigitCount(litsz);
    var d2 := DigitCount(cnt);
    var d3 := DigitCount(ofst);
    var sz := d1 + d2 + d3 + 3;
    if cnt >= sz && cnt > best.cnt {
      return Match(cnt, ofst, litsz);
    }
    return best;
  }

  lemma BestOfStep(src: bytes, out: bytes, base: nat, i: nat, ch: seq<nat>, n: nat, best: Match)
    requires base + i <= |out| && n < |ch|
    requires forall j :: 0 <= j < |ch| ==> 16 * ch[j] <= |src|
    ensures BestOf(src, out, base, i, ch[n..], best)
         == BestOf(src, out, base, i, ch[n + 1..], Better(best, Candidate(src, out, base, i, ch[n])))
  {
    hide Candidate, Better;
    assert ch[n..][1..] == ch[n + 1..];
  }

  /** The loop over one collision chain. */
  method FindBest(src: bytes, out: bytes, base: nat, i: nat, hv: nat, landmark: array<int>, collide: array<int>)
    returns (best: Match)
    requires 16 < |src| < 0x4000_0000 && base + i + 16 <= |out| < 0x4000_0000
    requires hv == Bucket(src, out[base + i..base + i + 16])
    requires Table(src, landmark[..], collide[..], Blocks(src))
    ensures best == Best(src, out, base, i)
  {
    hide Bucket, Candidate, Better, Chain, BestOf;
    var limit := 250;
    var iBlock := landmark[hv];
    best := NO_MATCH;
    ghost var ch := Chain(src, hv, Blocks(src));
    ghost var tried := Tried(src, out, base + i);
    ghost var n := 0;
    assert BucketHolds(src, landmark[..], collide[..], Blocks(src), hv);
    assert tried == ch[..Min(250, |ch|)];
    while iBlock >= 0 && limit > 0
      invariant 0 <= n <= |tried| && limit == 250 - n
      invariant Links(collide[..], iBlock, ch[n..])
      invariant BestOf(src, out, base, i, tried[n..], best) == Best(src, out, base, i)
      decreases limit
    {
      assert ch[n..][0] == ch[n] == tried[n] && ch[n..][1..] == ch[n + 1..];
      BestOfStep(src, out, base, i, tried, n, best);
      best := TryBlock(src, out, base, i, iBlock, best);
      n, limit := n + 1, limit - 1;
      iBlock := collide[iBlock];
    }
    assert tried[n..] == [];
    BestOfNone(src, out, base, i, best);
  }

  lemma BestOfNone(src: bytes, out: bytes, base: nat, i: nat, best: Match)
    requires base + i <= |out|
    ensures BestOf(src, out, base, i, [], best) == best
  {
  }
}
