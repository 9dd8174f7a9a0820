/** Files stored in numbered blocks (src/filesystem.rs:328-397, 399-461, 616-680, 812-960;
  * src/db_module/sqlite.rs:59-92, 898-959, 961-975, 1235-1258, 1292-1320). */
module FileStore {
  import opened Bytes
  import opened AuditLog
  import opened DataTable
  import opened FlatFile
  import SizeHeader

  /** Byte `pos` of file `f`: blocks are numbered from 1; a missing block, or one that is too short, reads
    * as zero. */
  function StoredByte(t: Table, f: nat, pos: nat): byte {
    var k := Key(f, pos / 4096 + 1);
    if k in t then At(t[k], pos % 4096) else 0
  }

  /** The flat file of `n` bytes that the blocks of `f` stand for. */
  function Flat(t: Table, f: nat, n: nat): (r: bytes)
    ensures |r| == n
    ensures forall j :: 0 <= j < n ==> r[j] == StoredByte(t, f, j)
  {
    seq<byte>(n, (j: nat) => StoredByte(t, f, j))
  }

  /** Nothing but zeros is stored from byte `n` on. */
  ghost predicate ZeroFrom(t: Table, f: nat, n: nat) {
    forall pos: nat :: pos >= n ==> StoredByte(t, f, pos) == 0
  }

  /** Blocks carry numbers from 1 on and at most 4096 bytes. */
  ghost predicate BlocksFit(t: Table) {
    forall k :: k in t ==> k.block >= 1 && |t[k]| <= 4096
  }

  /** Position arithmetic: byte `pos` lies in block `b` exactly when it is one of the block's 4096. */
  lemma BlockOf(pos: nat, b: nat)
    requires b >= 1
    ensures pos / 4096 + 1 == b <==> (b - 1) * 4096 <= pos < b * 4096
    ensures pos / 4096 + 1 == b ==> pos % 4096 == pos - (b - 1) * 4096
  {
  }

  /** The content of one block after bytes s..e of it have been overwritten, padded to full size. */
  ghost predicate Overwrites(t: Table, f: nat, b: nat, s: nat, e: nat, d: bytes, blk: bytes) {
    && b >= 1 && s < e <= 4096 && |d| == e - s && |blk| == 4096
    && forall j :: 0 <= j < 4096 ==>
         blk[j] == if s <= j < e then d[j - s] else StoredByte(t, f, (b - 1) * 4096 + j)
  }

  lemma OverwrittenByte(t: Table, f: nat, b: nat, s: nat, e: nat, d: bytes, blk: bytes, pos: nat)
    requires Overwrites(t, f, b, s, e, d, blk)
    ensures var off := (b - 1) * 4096 + s;
      StoredByte(t[Key(f, b) := blk], f, pos) == if off <= pos < off + |d| then d[pos - off] else StoredByte(t, f, pos)
  {
    BlockOf(pos, b);
    if pos / 4096 + 1 == b {
      var j := pos % 4096;
      assert blk[j] == if s <= j < e then d[j - s] else StoredByte(t, f, (b - 1) * 4096 + j);
    }
  }

  /** Storing such a block is a pwrite to the flat file, and keeps everything behind the end zero. */
  lemma BlockWrite(t: Table, f: nat, size: nat, b: nat, s: nat, e: nat, d: bytes, blk: bytes)
    requires Overwrites(t, f, b, s, e, d, blk) && ZeroFrom(t, f, size)
    ensures var off := (b - 1) * 4096 + s;
      var t', size' := t[Key(f, b) := blk], Max(size, off + |d|);
      && Flat(t', f, size') == PWrite(Flat(t, f, size), off, d)
      && ZeroFrom(t', f, size')
  {
    hide StoredByte, Overwrites, PWrite, Flat;
    OverwritesBounds(t, f, b, s, e, d, blk);
    var off: nat := (b - 1) * 4096 + s;
    var t', size' := t[Key(f, b) := blk], Max(size, off + |d|);
    forall pos: nat
      ensures StoredByte(t', f, pos) == if off <= pos < off + |d| then d[pos - off] else StoredByte(t, f, pos)
    {
      OverwrittenByte(t, f, b, s, e, d, blk, pos);
    }
    var flat, w := Flat(t, f, size), PWrite(Flat(t, f, size), off, d);
    forall j | 0 <= j < size'
      ensures Flat(t', f, size')[j] == w[j]
    {
      assert At(flat, j) == StoredByte(t, f, j);
    }
  }

  lemma Patchwork(t: Table, f: nat, b: nat, s: nat, e: nat, d: bytes, pre: bytes, blk: bytes)
    requires b >= 1 && s < e <= 4096 && |d| == e - s && |pre| == 4096
    requires forall j :: 0 <= j < 4096 ==> pre[j] == StoredByte(t, f, (b - 1) * 4096 + j)
    requires blk == pre[..s] + d + pre[e..]
    ensures Overwrites(t, f, b, s, e, d, blk)
  {
    hide StoredByte;
  }

  lemma WholeBlock(t: Table, f: nat, b: nat, d: bytes)
    requires b >= 1 && |d| == 4096
    ensures Overwrites(t, f, b, 0, 4096, d, d)
  {
    hide StoredByte;
  }

  lemma OverwritesBounds(t: Table, f: nat, b: nat, s: nat, e: nat, d: bytes, blk: bytes)
    requires Overwrites(t, f, b, s, e, d, blk)
    ensures b >= 1 && d != []
  {
  }

  lemma OtherFile(t: Table, f: nat, g: nat, n: nat, b: nat, blk: bytes)
    requires f != g
    ensures Flat(t[Key(f, b) := blk], g, n) == Flat(t, g, n)
    ensures ZeroFrom(t, g, n) ==> ZeroFrom(t[Key(f, b) := blk], g, n)
  {
    var t' := t[Key(f, b) := blk];
    assert forall pos: nat :: StoredByte(t', g, pos) == StoredByte(t, g, pos);
  }

  /** The flat files that the blocks and recorded sizes stand for. */
  function FilesOf(t: Table, sizes: map<nat, nat>): (m: map<nat, bytes>)
    ensures m.Keys == sizes.Keys
  {
    map f | f in sizes :: Flat(t, f, sizes[f])
  }

  /** No file has anything but zeros stored behind its end. */
  ghost predicate ZeroTails(t: Table, sizes: map<nat, nat>) {
    forall f :: f in sizes ==> ZeroFrom(t, f, sizes[f])
  }

  lemma BlockWriteFiles(t: Table, sizes: map<nat, nat>, f: nat, b: nat, s: nat, e: nat, d: bytes, blk: bytes)
    requires f in sizes && Overwrites(t, f, b, s, e, d, blk) && ZeroTails(t, sizes)
    ensures b >= 1
    ensures var off := (b - 1) * 4096 + s;
      var t', sizes' := t[Key(f, b) := blk], sizes[f := Max(sizes[f], off + |d|)];
      && FilesOf(t', sizes') == FilesOf(t, sizes)[f := PWrite(FilesOf(t, sizes)[f], off, d)]
      && ZeroTails(t', sizes')
  {
    hide StoredByte, Flat, PWrite, Overwrites, ZeroFrom;
    OverwritesBounds(t, f, b, s, e, d, blk);
    BlockWrite(t, f, sizes[f], b, s, e, d, blk);
    forall g | g in sizes && g != f
      ensures Flat(t[Key(f, b) := blk], g, sizes[g]) == Flat(t, g, sizes[g])
      ensures ZeroFrom(t[Key(f, b) := blk], g, sizes[g])
    {
      OtherFile(t, f, g, sizes[g], b, blk);
    }
  }

  /** release_data cuts everything from byte n on. */
  ghost predicate CutAt(t: Table, t': Table, f: nat, n: nat) {
    && (forall pos: nat :: StoredByte(t', f, pos) == if pos < n then StoredByte(t, f, pos) else 0)
    && (forall k: Key :: k.file != f ==> (k in t' <==> k in t) && (k in t ==> t'[k] == t[k]))
  }

  /** Changing the size, with the data behind a smaller size cut off, is ftruncate. */
  lemma Resized(t: Table, t': Table, f: nat, size: nat, n: nat)
    requires ZeroFrom(t, f, size)
    requires if n < size then CutAt(t, t', f, n) else t' == t
    ensures Flat(t', f, n) == FTruncate(Flat(t, f, size), n) && ZeroFrom(t', f, n)
  {
    hide StoredByte, FTruncate, Flat;
    var flat := Flat(t, f, size);
    forall j | 0 <= j < n
      ensures Flat(t', f, n)[j] == FTruncate(flat, n)[j]
    {
      assert At(flat, j) == StoredByte(t, f, j);
    }
  }

  lemma CutOtherFile(t: Table, t': Table, f: nat, g: nat, n: nat, m: nat)
    requires CutAt(t, t', f, n) && f != g
    ensures Flat(t', g, m) == Flat(t, g, m)
    ensures ZeroFrom(t, g, m) ==> ZeroFrom(t', g, m)
  {
    assert forall pos: nat :: StoredByte(t', g, pos) == StoredByte(t, g, pos) by {
      forall pos: nat
        ensures StoredByte(t', g, pos) == StoredByte(t, g, pos)
      {
        var k := Key(g, pos / 4096 + 1);
        assert k.file != f;
      }
    }
  }

  /** Vec::resize: truncate, or append zeros. */
  function Resize(d: bytes, n: nat): (r: bytes)
    ensures |r| == n
    ensures forall j :: 0 <= j < n ==> r[j] == At(d, j)
  {
    if n <= |d| then d[..n] else d + Zeros(n - |d|)
  }

  /** The number of the block that holds byte `pos`. */
  function BlockNum(pos: nat): (b: nat)
    ensures b >= 1
  {
    pos / 4096 + 1
  }

  /** The part of a write of n > 0 bytes at `offset` that falls into block i: bytes s..e of the block come
    * from the data at `o`. */
  function Span(offset: nat, n: nat, i: nat): (nat, nat, int)
    requires n > 0
  {
    var first, last := BlockNum(offset), BlockNum(offset + n - 1);
    (if i == first then offset % 4096 else 0,
     if i == last then (offset + n - 1) % 4096 + 1 else 4096,
     if i > first then (i - first - 1) * 4096 + 4096 - offset % 4096 else 0)
  }

  /** How many bytes have been written before the loop comes to block i. */
  function WrittenBefore(offset: nat, n: nat, i: nat): (k: nat)
    requires n > 0
    ensures k <= n
  {
    if i > BlockNum(offset + n - 1) then n else if i <= BlockNum(offset) then 0 else (i - 1) * 4096 - offset
  }

  /** The spans of consecutive blocks are adjacent, start at the front of the data and end with it. */
  lemma SpansTile(offset: nat, n: nat, i: nat)
    requires n > 0 && BlockNum(offset) <= i <= BlockNum(offset + n - 1)
    ensures var (s, e, o) := Span(offset, n, i);
      && o == WrittenBefore(offset, n, i) && s < e <= 4096 && o + e - s <= n
      && (i - 1) * 4096 + s == offset + o
      && o + e - s == WrittenBefore(offset, n, i + 1)
  {
  }

  lemma NoRows(t: Table, f: nat)
    ensures (forall k :: k in t ==> k.file != f) ==> ZeroFrom(t, f, 0)
  {
  }

  lemma Padded(t: Table, f: nat, size: nat, off: nat, d: bytes)
    requires ZeroFrom(t, f, size)
    requires forall j :: 0 <= j < |d| ==> d[j] == StoredByte(t, f, off + j)
    ensures d == ReadPadded(Flat(t, f, size), off, |d|)
  {
    hide StoredByte;
    var flat := Flat(t, f, size);
    forall j | 0 <= j < |d|
      ensures d[j] == At(flat, off + j)
    {
    }
  }

  /** The files after the first `done` bytes of a write. */
  function WrittenSoFar(files: map<nat, bytes>, ino: nat, offset: nat, d: bytes, done: nat): map<nat, bytes>
    requires done <= |d|
  {
    if ino in files then files[ino := PWrite(files[ino], offset, d[..done])] else files
  }

  lemma WrittenKeys(files: map<nat, bytes>, ino: nat, offset: nat, d: bytes, done: nat)
    requires done <= |d|
    ensures WrittenSoFar(files, ino, offset, d, done).Keys == files.Keys
    ensures ino !in files ==> WrittenSoFar(files, ino, offset, d, done) == files
  {
  }

  lemma WrittenEnds(files: map<nat, bytes>, ino: nat, offset: nat, d: bytes)
    requires d != []
    ensures var first, last := BlockNum(offset), BlockNum(offset + |d| - 1);
      && first <= last
      && WrittenSoFar(files, ino, offset, d, WrittenBefore(offset, |d|, first)) == files
      && WrittenSoFar(files, ino, offset, d, WrittenBefore(offset, |d|, last + 1))
      == if ino in files then files[ino := PWrite(files[ino], offset, d)] else files
  {
    hide PWrite;
    assert d[..|d|] == d;
  }

  lemma WriteOn(files: map<nat, bytes>, ino: nat, offset: nat, d: bytes, o: nat, o': nat)
    requires ino in files && o <= o' <= |d|
    ensures var w := WrittenSoFar(files, ino, offset, d, o);
      w[ino := PWrite(w[ino], offset + o, d[o..o'])] == WrittenSoFar(files, ino, offset, d, o')
  {
    hide PWrite;
    PWriteConcat(files[ino], offset, d[..o], d[o..o']);
    assert d[..o] + d[o..o'] == d[..o'];
  }

  /** Storing block i takes the files from what they were before it to what they are before the next. */
  lemma NextBlock(t: Table, sizes: map<nat, nat>, was: map<nat, bytes>, f: nat, offset: nat, d: bytes, i: nat,
                  blk: bytes)
    requires d != [] && BlockNum(offset) <= i <= BlockNum(offset + |d| - 1)
    requires f in sizes && f in was && ZeroTails(t, sizes)
    requires FilesOf(t, sizes) == WrittenSoFar(was, f, offset, d, WrittenBefore(offset, |d|, i))
    requires var (s, e, o) := Span(offset, |d|, i);
      s < e && 0 <= o && o + e - s <= |d| && Overwrites(t, f, i, s, e, d[o..o + e - s], blk)
    ensures i >= 1
    ensures var (s, e, o) := Span(offset, |d|, i);
      var t', sizes' := t[Key(f, i) := blk], sizes[f := Max(sizes[f], (i - 1) * 4096 + e)];
      && FilesOf(t', sizes') == WrittenSoFar(was, f, offset, d, WrittenBefore(offset, |d|, i + 1))
      && ZeroTails(t', sizes')
  {
    hide PWrite, Overwrites, Span, FilesOf, ZeroTails, BlockNum, WrittenSoFar, WrittenBefore;
    SpansTile(offset, |d|, i);
    var (s, e, o) := Span(offset, |d|, i);
    BlockWriteFiles(t, sizes, f, i, s, e, d[o..o + e - s], blk);
    WriteOn(was, f, offset, d, o, o + e - s);
  }

  lemma CutAll(t: Table, t': Table, f: nat)
    requires t' == map k | k in t && k.file != f :: t[k]
    ensures CutAt(t, t', f, 0)
  {
  }

  lemma CutBehind(t: Table, t': Table, f: nat, n: nat)
    requires n > 0
    requires var block := if n % 4096 != 0 then n / 4096 + 1 else n / 4096;
      var k0 := Key(f, block);
      var mid := if n % 4096 != 0 then t[k0 := Resize(if k0 in t then t[k0] else Zeros(4096), n % 4096)] else t;
      t' == map k | k in mid && !(k.file == f && k.block > block) :: mid[k]
    ensures CutAt(t, t', f, n)
  {
    forall pos: nat
      ensures StoredByte(t', f, pos) == if pos < n then StoredByte(t, f, pos) else 0
    {
      BlockOf(pos, n / 4096 + 1);
    }
  }

  lemma ResizedFiles(t: Table, t': Table, sizes: map<nat, nat>, f: nat, n: nat)
    requires f in sizes && ZeroTails(t, sizes)
    requires if n < sizes[f] then CutAt(t, t', f, n) else t' == t
    ensures FilesOf(t', sizes[f := n]) == FilesOf(t, sizes)[f := FTruncate(FilesOf(t, sizes)[f], n)]
    ensures ZeroTails(t', sizes[f := n])
  {
    hide StoredByte, Flat, CutAt, ZeroFrom, FTruncate;
    Resized(t, t', f, sizes[f], n);
    forall g | g in sizes && g != f
      ensures Flat(t', g, sizes[g]) == Flat(t, g, sizes[g]) && ZeroFrom(t', g, sizes[g])
    {
      if n < sizes[f] {
        CutOtherFile(t, t', f, g, n, sizes[g]);
      }
    }
  }

  lemma RemovedFile(t: Table, t': Table, sizes: map<nat, nat>, f: nat)
    requires CutAt(t, t', f, 0) && ZeroTails(t, sizes)
    ensures FilesOf(t', sizes - {f}) == FilesOf(t, sizes) - {f}
    ensures ZeroTails(t', sizes - {f})
  {
    hide StoredByte, Flat, CutAt, ZeroFrom;
    forall g | g in sizes && g != f
      ensures Flat(t', g, sizes[g]) == Flat(t, g, sizes[g]) && ZeroFrom(t', g, sizes[g])
    {
      CutOtherFile(t, t', f, g, 0, sizes[g]);
    }
  }

  lemma LinkFiles(t: Table, sizes: map<nat, nat>, f: nat, text: bytes)
    requires f in sizes && sizes[f] == 0 && ZeroTails(t, sizes) && |text| <= 4096
    ensures var t', sizes' := t[Key(f, 1) := text], sizes[f := |text|];
      FilesOf(t', sizes') == FilesOf(t, sizes)[f := text] && ZeroTails(t', sizes')
  {
    hide Flat;
    var t' := t[Key(f, 1) := text];
    assert ZeroFrom(t, f, 0);
    forall pos: nat
      ensures StoredByte(t', f, pos) == At(text, pos)
    {
      BlockOf(pos, 1);
      assert StoredByte(t, f, pos) == 0;
    }
    assert Flat(t', f, |text|) == text;
    forall g | g in sizes && g != f
      ensures Flat(t', g, sizes[g]) == Flat(t, g, sizes[g]) && ZeroFrom(t', g, sizes[g])
    {
      OtherFile(t, f, g, sizes[g], 1, text);
    }
  }

  /** What readlink makes of a content: only its first block is read. */
  function LinkText(f: bytes): (r: bytes)
    ensures |r| == |f| && (|f| <= 4096 ==> r == f)
    ensures forall j :: 0 <= j < |f| ==> r[j] == if j < 4096 then f[j] else 0
  {
    seq<byte>(|f|, (j: nat) requires j < |f| => if j < 4096 then f[j] else 0)
  }

  lemma FirstBlock(t: Table, f: nat, n: nat, d: bytes)
    requires BlocksFit(t) && d == if Key(f, 1) in t then t[Key(f, 1)] else Zeros(n)
    ensures Resize(d, n) == LinkText(Flat(t, f, n))
  {
    forall j: nat | j < n
      ensures At(d, j) == if j < 4096 then Flat(t, f, n)[j] else 0
    {
      BlockOf(j, 1);
    }
  }

  /** The metadata sizes and the data table, with the operations on file content. */
  class Store {
    const data: Data
    var size: map<nat, nat>

    /** Foreign key and block format. */
    ghost predicate Tables()
      reads this, data
    {
      && data.Valid()
      && BlocksFit(data.rows)
      && forall k :: k in data.rows ==> k.file in size
    }

    ghost predicate Valid()
      reads this, data
    {
      && Tables()
      && ZeroTails(data.rows, size)
    }

    /** The flat files the tables stand for. */
    ghost function Files(): (m: map<nat, bytes>)
      reads this, data
      ensures m.Keys == size.Keys
    {
      FilesOf(data.rows, size)
    }

    constructor (ext: Ext)
      requires SizeHeader.Inverse(ext.zlib)
      ensures Valid() && fresh(data) && data.ext == ext && Files() == map[]
    {
      data := new Data(ext);
      size := map[];
    }

    /** get_data: a missing row reads as `length` zeros. */
    method GetData(ino: nat, block: nat, length: nat) returns (row: bytes)
      ensures row == if Key(ino, block) in data.rows then data.rows[Key(ino, block)] else Zeros(length)
    {
      if Key(ino, block) in data.rows {
        row := data.rows[Key(ino, block)];
      } else {
        row := Zeros(length);
      }
    }

    /** write_data: upsert the block and let the recorded size grow to `newSize`. */
    method WriteData(ino: nat, block: nat, d: bytes, newSize: nat) returns (ok: bool)
      requires Tables() && block >= 1 && |d| <= 4096
      modifies this`size, data
      ensures Tables()
      ensures ok <==> ino in old(size)
      ensures ok ==> data.rows == old(data.rows)[Key(ino, block) := d]
      ensures ok ==> data.log == old(data.log) + Logged(data.ext, old(data.rows), Upsert(Key(ino, block), d))
      ensures ok ==> size == old(size)[ino := Max(old(size)[ino], newSize)]
      ensures !ok ==> data.rows == old(data.rows) && size == old(size)
    {
      if ino !in size {
        return false;
      }
      var dbSize := size[ino];
      data.UpsertRow(Key(ino, block), d);
      if newSize > dbSize {
        size := size[ino := newSize];
      }
      return true;
    }

    /** One block of a write: read-modify-write unless the block is overwritten as a whole. */
    method FillBlock(ino: nat, i: nat, s: nat, e: nat, d: bytes, o: nat) returns (blk: bytes)
      requires Tables() && i >= 1
      requires s < e <= 4096 && o + e - s <= |d|
      ensures |blk| == 4096 && Overwrites(data.rows, ino, i, s, e, d[o..o + e - s], blk)
    {
      hide StoredByte, Overwrites;
      ghost var part := d[o..o + e - s];
      if s != 0 || e != 4096 {
        var pre := GetData(ino, i, 4096);
        if |pre| < 4096 {
          pre := Resize(pre, 4096);
        }
        BlockBytes(ino, i, pre);
        blk := [];
        if s != 0 {
          blk := blk + pre[..s];
        }
        blk := blk + d[o..o + e - s];
        if e != 4096 {
          blk := blk + pre[e..];
        }
        assert blk == pre[..s] + part + pre[e..];
        Patchwork(data.rows, ino, i, s, e, part, pre, blk);
      } else {
        blk := d[o..o + 4096];
        WholeBlock(data.rows, ino, i, part);
      }
    }

    lemma BlockBytes(ino: nat, i: nat, pre: bytes)
      requires i >= 1 && |pre| == 4096
      requires forall j :: 0 <= j < 4096 ==>
                 pre[j] == if Key(ino, i) in data.rows then At(data.rows[Key(ino, i)], j) else 0
      ensures forall j :: 0 <= j < 4096 ==> pre[j] == StoredByte(data.rows, ino, (i - 1) * 4096 + j)
    {
      forall j | 0 <= j < 4096
        ensures pre[j] == StoredByte(data.rows, ino, (i - 1) * 4096 + j)
      {
        BlockOf((i - 1) * 4096 + j, i);
      }
    }

    /** One turn of the loop in write: `was` are the files before the first turn. */
    method WriteBlock(ino: nat, offset: nat, d: bytes, i: nat, ghost was: map<nat, bytes>) returns (ok: bool)
      requires Valid() && d != [] && BlockNum(offset) <= i <= BlockNum(offset + |d| - 1)
      requires Files() == WrittenSoFar(was, ino, offset, d, WrittenBefore(offset, |d|, i))
      modifies this`size, data
      ensures Valid() && (ok <==> ino in was)
      ensures ok ==> Files() == WrittenSoFar(was, ino, offset, d, WrittenBefore(offset, |d|, i + 1))
      ensures !ok ==> Files() == old(Files())
    {
      hide StoredByte, PWrite, Overwrites, Span, Flat, ZeroFrom, Logged, BlocksFit, Data.Valid, FilesOf, ZeroTails,
           BlockNum, WrittenSoFar, WrittenBefore;
      SpansTile(offset, |d|, i);
      var (s, e, o) := Span(offset, |d|, i);
      var blk := FillBlock(ino, i, s, e, d, o);
      WrittenKeys(was, ino, offset, d, o);
      ghost var rows, sizes := data.rows, size;
      ok := WriteData(ino, i, blk, (i - 1) * 4096 + e);
      if ok {
        NextBlock(rows, sizes, was, ino, offset, d, i, blk);
      }
    }

    /** write: block by block, valid after each of them. */
    method Write(ino: nat, offset: nat, d: bytes) returns (ok: bool)
      requires Valid() && d != [] && offset + |d| < 0x1_0000_0000
      modifies this`size, data
      ensures Valid() && (ok <==> ino in old(size))
      ensures Files() == if ok then old(Files())[ino := PWrite(old(Files())[ino], offset, d)] else old(Files())
    {
      hide PWrite, BlockNum, WrittenSoFar, WrittenBefore;
      var startBlock := BlockNum(offset);
      var endBlock := BlockNum(offset + |d| - 1);
      var i := startBlock;
      ghost var was := Files();
      WrittenEnds(was, ino, offset, d);
      while i <= endBlock
        invariant startBlock <= i <= endBlock + 1 && (i > startBlock ==> ino in was)
        invariant Valid() && Files() == WrittenSoFar(was, ino, offset, d, WrittenBefore(offset, |d|, i))
      {
        ok := WriteBlock(ino, offset, d, i, was);
        if !ok {
          WrittenKeys(was, ino, offset, d, WrittenBefore(offset, |d|, i));
          return false;
        }
        i := i + 1;
      }
      ok := true;
    }

    /** read: always `n` bytes, zeros standing in for what is missing. */
    method Read(ino: nat, offset0: nat, n: nat) returns (d: bytes)
      requires Valid() && offset0 + n < 0x1_0000_0000
      ensures d == ReadPadded(if ino in size then Files()[ino] else [], offset0, n)
    {
      hide StoredByte;
      d := [];
      var left, offset := n, offset0;
      while left > 0
        invariant 0 <= left <= n && offset + left == offset0 + n && |d| == n - left
        invariant forall j :: 0 <= j < |d| ==> d[j] == StoredByte(data.rows, ino, offset0 + j)
        decreases left
      {
        var piece := ReadPiece(ino, offset, left);
        d := d + piece;
        offset, left := offset + |piece|, left - |piece|;
      }
      NoRows(data.rows, ino);
      Padded(data.rows, ino, if ino in size then size[ino] else 0, offset0, d);
    }

    /** One turn of the loop in read: up to the end of the block or of the request. */
    method ReadPiece(ino: nat, offset: nat, left: nat) returns (piece: bytes)
      requires left > 0
      ensures 0 < |piece| <= left
      ensures forall j :: 0 <= j < |piece| ==> piece[j] == StoredByte(data.rows, ino, offset + j)
    {
      hide StoredByte;
      var bNum := offset / 4096 + 1;
      var blockData := GetData(ino, bNum, 4096);
      var bOffset := offset % 4096;
      var bEnd := if (left + bOffset) / 4096 >= 1 then 4096 else left + bOffset;
      if |blockData| < bEnd {
        blockData := Resize(blockData, bEnd);
      }
      PieceBytes(ino, offset, bEnd, blockData);
      piece := blockData[bOffset..bEnd];
    }

    lemma PieceBytes(ino: nat, offset: nat, bEnd: nat, blockData: bytes)
      requires offset % 4096 <= bEnd <= 4096 && bEnd <= |blockData|
      requires forall j :: 0 <= j < bEnd ==>
                 blockData[j] == var k := Key(ino, offset / 4096 + 1);
                                 if k in data.rows then At(data.rows[k], j) else 0
      ensures forall j :: offset % 4096 <= j < bEnd ==>
                blockData[j] == StoredByte(data.rows, ino, offset + (j - offset % 4096))
    {
      forall j | offset % 4096 <= j < bEnd
        ensures blockData[j] == StoredByte(data.rows, ino, offset + (j - offset % 4096))
      {
        BlockOf(offset + (j - offset % 4096), offset / 4096 + 1);
      }
    }

    /** release_data: shorten the block that holds the cut, drop the blocks behind it. */
    method ReleaseData(ino: nat, offset: nat)
      requires Tables() && ino in size
      modifies data
      ensures Tables() && CutAt(old(data.rows), data.rows, ino, offset)
    {
      hide StoredByte, CutAt, Data.Valid, DeleteRows, Enumerates, Logged;
      ghost var was := data.rows;
      if offset == 0 {
        ghost var order := data.DeleteFile(ino);
        CutAll(was, data.rows, ino);
      } else {
        var block := offset / 4096;
        if offset % 4096 != 0 {
          block := offset / 4096 + 1;
          var d := if Key(ino, block) in data.rows then data.rows[Key(ino, block)] else Zeros(4096);
          d := Resize(d, offset % 4096);
          data.ReplaceRow(Key(ino, block), d);
        }
        ghost var order := data.DeleteAbove(ino, block);
        CutBehind(was, data.rows, ino, offset);
      }
    }

    /** The size part of update_inode, one transaction. */
    method UpdateInode(ino: nat, linked: bool, newSize: nat, truncate: bool) returns (ok: bool)
      requires Tables()
      modifies this`size, data
      ensures Tables() && (ok <==> ino in old(size) && linked)
      ensures ok ==> size == old(size)[ino := newSize]
      ensures ok ==> if truncate then CutAt(old(data.rows), data.rows, ino, newSize) else data.rows == old(data.rows)
      ensures !ok ==> size == old(size) && data.rows == old(data.rows)
    {
      if ino !in size || !linked {
        return false;
      }
      size := size[ino := newSize];
      if truncate {
        ReleaseData(ino, newSize);
      }
      return true;
    }

    /** setattr with a size: `n` is cut to 32 bits. An inode that no directory entry names (`linked` false)
      * cannot be read by get_inode, whose link count is then NULL, and is refused. */
    method SetSize(ino: nat, linked: bool, n: nat) returns (ok: bool)
      requires Valid()
      modifies this`size, data
      ensures Valid() && (ok <==> ino in old(size) && linked)
      ensures Files() == if ok then old(Files())[ino := FTruncate(old(Files())[ino], U32(n))] else old(Files())
    {
      hide StoredByte, U32, Flat, CutAt;
      if ino !in size || !linked {
        return false;
      }
      var oldSize := size[ino];
      ghost var rows, sizes := data.rows, size;
      ok := UpdateInode(ino, linked, U32(n), oldSize > U32(n));
      ResizedFiles(rows, data.rows, sizes, ino, U32(n));
    }

    /** A fresh metadata row, with the number AUTOINCREMENT has given it; a used number is refused. */
    method AddInode(ino: nat) returns (ok: bool)
      requires Valid()
      modifies this`size
      ensures Valid() && (ok <==> ino !in old(size))
      ensures Files() == if ok then old(Files())[ino := []] else old(Files())
    {
      hide StoredByte, Flat;
      if ino in size {
        return false;
      }
      size := size[ino := 0];
      NoRows(data.rows, ino);
      assert Flat(data.rows, ino, 0) == [];
      return true;
    }

    /** DELETE FROM metadata, with the cascade to the data table. */
    method DeleteInode(ino: nat)
      requires Valid()
      modifies this`size, data
      ensures Valid()
      ensures Files() == old(Files()) - {ino}
    {
      hide StoredByte, Flat, FilesOf, ZeroTails;
      ghost var rows, sizes := data.rows, size;
      size := size - {ino};
      ghost var order := data.DeleteFile(ino);
      CutAll(rows, data.rows, ino);
      RemovedFile(rows, data.rows, sizes, ino);
    }

    lemma FileSizes()
      ensures forall i :: i in size ==> |Files()[i]| == size[i]
    {
    }

    /** The rows of metadata have become those of `meta`: rows that have gone take their blocks with them, new rows
      * have size 0. */
    method Follow(meta: set<nat>)
      requires Valid()
      modifies this`size, data
      ensures Valid() && size.Keys == meta
      ensures forall i :: i in meta ==> Files()[i] == if i in old(Files()) then old(Files())[i] else []
      ensures forall i :: i in meta && i !in old(size) ==> size[i] == 0
    {
      hide Store.Valid, Store.Files;
      ghost var before := Files();
      var todo := size.Keys - meta;
      while todo != {}
        invariant Valid() && todo <= Files().Keys && Files().Keys - todo == before.Keys * meta
        invariant forall i :: i in Files() ==> i in before && Files()[i] == before[i]
        decreases todo
      {
        var i :| i in todo;
        DeleteInode(i);
        todo := todo - {i};
      }
      assert Files().Keys - {} == size.Keys;
      todo := meta - size.Keys;
      while todo != {}
        invariant Valid() && todo <= meta && Files().Keys + todo == meta && Files().Keys !! todo
        invariant forall i :: i in Files() ==> Files()[i] == if i in before then before[i] else []
        invariant forall i :: i in before && i in meta ==> i in Files()
        decreases todo
      {
        var i :| i in todo;
        var _ := AddInode(i);
        todo := todo - {i};
      }
      FileSizes();
    }

    /** The data part of symlink: a link text longer than a block is refused, otherwise it becomes block 1. */
    method WriteLink(ino: nat, text: bytes) returns (ok: bool)
      requires Valid() && ino in size && size[ino] == 0
      modifies this`size, data
      ensures Valid() && (ok <==> |text| <= 4096)
      ensures Files() == if ok then old(Files())[ino := text] else old(Files())
    {
      hide StoredByte, Flat;
      if |text| > 4096 {
        return false;
      }
      ghost var rows, sizes := data.rows, size;
      ok := WriteData(ino, 1, text, |text|);
      LinkFiles(rows, sizes, ino, text);
    }

    /** The data part of readlink: the first block at the recorded size. */
    method ReadLink(ino: nat) returns (text: bytes)
      requires Valid() && ino in size
      ensures text == LinkText(Files()[ino])
    {
      hide StoredByte;
      var d := GetData(ino, 1, size[ino]);
      text := Resize(d, size[ino]);
      FirstBlock(data.rows, ino, size[ino], d);
    }
  }
}
