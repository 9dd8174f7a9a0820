/** Reading a directory page by page (src/filesystem.rs:982-1057, 1099-1115; fuse/patches/reply.rs:629-665). */
module ReadDir {
  import opened Wrappers
  import opened Bytes

  /** A row of the snapshot; `typ` is the mode constant of its kind shifted down by 12 bits. */
  datatype DirEntry = DirEntry(child: nat, typ: nat, name: bytes)

  /** Numbers that fit the fields of a fuse_dirent. */
  predicate Fits(e: DirEntry) {
    e.child < 0x1_0000_0000 && e.typ < 16 && |e.name| < 0x1_0000_0000
  }

  // ---------- The record of one entry ----------

  function LittleEndian(n: nat, k: nat): (r: bytes)
    ensures |r| == k
  {
    if k == 0 then [] else [n % 256] + LittleEndian(n / 256, k - 1)
  }

  function FromLittleEndian(s: bytes): nat {
    if s == [] then 0 else s[0] as nat + 256 * FromLittleEndian(s[1..])
  }

  /** Byte `j` of a little-endian number. */
  lemma {:induction false} LittleEndianByte(n: nat, k: nat, j: nat)
    requires j < k
    ensures LittleEndian(n, k)[j] == n / Pow256(j) % 256
    decreases j
  {
    if j > 0 {
      LittleEndianByte(n / 256, k - 1, j - 1);
      DivDiv(n, Pow256(j - 1));
    }
  }

  lemma DivDiv(n: nat, p: nat)
    requires p > 0
    ensures n / 256 / p == n / (256 * p)
  {
    var q, r := n / 256 / p, n / 256 % p;
    assert n / 256 == q * p + r;
    assert n == q * (256 * p) + (r * 256 + n % 256);
    assert 0 <= r * 256 + n % 256 < 256 * p;
    Quotient(n, 256 * p, q, r * 256 + n % 256);
  }

  lemma Quotient(n: nat, d: nat, q: nat, r: nat)
    requires n == q * d + r && r < d
    ensures n / d == q
  {
    var q' := n / d;
    if q' > q {
      Monotone(q + 1, q', d);
    } else if q' < q {
      Monotone(q' + 1, q, d);
    }
  }

  lemma Monotone(x: nat, y: nat, d: nat)
    requires x <= y
    ensures x * d <= y * d
  {
  }

  function Pow256(k: nat): (r: nat)
    ensures r > 0
  {
    if k == 0 then 1 else 256 * Pow256(k - 1)
  }

  lemma {:induction false} LittleEndianReads(n: nat, k: nat)
    requires n < Pow256(k)
    ensures FromLittleEndian(LittleEndian(n, k)) == n
  {
    if k > 0 {
      LittleEndianReads(n / 256, k - 1);
      assert LittleEndian(n, k)[1..] == LittleEndian(n / 256, k - 1);
    }
  }

  /** Size of a record: 24 bytes of header and the name, rounded up to a multiple of 8. */
  function EntSize(e: DirEntry): (n: nat)
    ensures n % 8 == 0 && 24 + |e.name| <= n < 32 + |e.name|
  {
    (24 + |e.name| + 7) / 8 * 8
  }

  /** fuse_dirent: inode, offset of the next entry, name length, type; then the name and zero padding. */
  function Record(e: DirEntry, off: nat): (r: bytes)
    ensures |r| == EntSize(e)
  {
    LittleEndian(e.child, 8) + LittleEndian(off, 8) + LittleEndian(|e.name|, 4) + LittleEndian(e.typ, 4)
    + e.name + Zeros(EntSize(e) - 24 - |e.name|)
  }

  /** Behind the name a record is filled up with zeros. */
  lemma RecordIsPadded(e: DirEntry, off: nat)
    ensures forall j :: 24 + |e.name| <= j < EntSize(e) ==> Record(e, off)[j] == 0
  {
    hide LittleEndian;
  }

  /** The reply under construction: a vector of fixed capacity. */
  class ReplyDirectory {
    var data: bytes
    const capacity: nat

    ghost predicate Valid()
      reads this
    {
      |data| <= capacity && |data| % 8 == 0
    }

    constructor (size: nat)
      ensures Valid() && data == [] && capacity == size
    {
      data, capacity := [], size;
    }

    /** add: true if the record does not fit any more. */
    method Add(e: DirEntry, off: nat) returns (full: bool)
      requires Valid()
      modifies this`data
      ensures Valid()
      ensures full <==> |old(data)| + EntSize(e) > capacity
      ensures data == if full then old(data) else old(data) + Record(e, off)
    {
      var entlen := 24 + |e.name|;
      var entsize := (entlen + 7) / 8 * 8;
      var padlen := entsize - entlen;
      if |data| + entsize > capacity {
        return true;
      }
      data := data + (LittleEndian(e.child, 8) + LittleEndian(off, 8) + LittleEndian(|e.name|, 4)
                      + LittleEndian(e.typ, 4) + e.name + Zeros(padlen));
      return false;
    }
  }

  // ---------- Pages ----------

  /** How many entries from `off` on fit into `room` bytes. */
  function Fitting(entries: seq<DirEntry>, off: nat, room: nat): (n: nat)
    requires off <= |entries|
    ensures off + n <= |entries|
    decreases |entries| - off
  {
    if off == |entries| || EntSize(entries[off]) > room then 0
    else 1 + Fitting(entries, off + 1, room - EntSize(entries[off]))
  }

  /** The records of entries off..off + n, each with the offset of the entry behind it. */
  function Page(entries: seq<DirEntry>, off: nat, n: nat): bytes
    requires off + n <= |entries|
    decreases n
  {
    if n == 0 then [] else Record(entries[off], off + 1) + Page(entries, off + 1, n - 1)
  }

  lemma {:induction false} PageSnoc(entries: seq<DirEntry>, off: nat, n: nat)
    requires off + n < |entries|
    ensures Page(entries, off, n + 1) == Page(entries, off, n) + Record(entries[off + n], off + n + 1)
    decreases n
  {
    hide Record, Page;
    PageStep(entries, off, n + 1);
    if n > 0 {
      PageStep(entries, off, n);
      PageSnoc(entries, off + 1, n - 1);
      Assoc(Record(entries[off], off + 1), Page(entries, off + 1, n - 1), Record(entries[off + n], off + n + 1));
    } else {
      EmptyPage(entries, off);
      EmptyPage(entries, off + 1);
      assert [] + Record(entries[off], off + 1) == Record(entries[off], off + 1) + [];
    }
  }

  lemma PageStep(entries: seq<DirEntry>, off: nat, n: nat)
    requires n > 0 && off + n <= |entries|
    ensures Page(entries, off, n) == Record(entries[off], off + 1) + Page(entries, off + 1, n - 1)
  {
  }

  lemma EmptyPage(entries: seq<DirEntry>, off: nat)
    requires off <= |entries|
    ensures Page(entries, off, 0) == []
  {
  }

  lemma FittingStep(entries: seq<DirEntry>, off: nat, room: nat)
    requires off <= |entries|
    ensures Fitting(entries, off, room)
         == if off == |entries| || EntSize(entries[off]) > room then 0
            else 1 + Fitting(entries, off + 1, room - EntSize(entries[off]))
  {
  }

  /** A page is aligned and within its capacity. */
  lemma {:induction false} PageFits(entries: seq<DirEntry>, off: nat, room: nat)
    requires off <= |entries|
    ensures |Page(entries, off, Fitting(entries, off, room))| <= room
    ensures |Page(entries, off, Fitting(entries, off, room))| % 8 == 0
    decreases |entries| - off
  {
    hide Record;
    if off < |entries| && EntSize(entries[off]) <= room {
      PageFits(entries, off + 1, room - EntSize(entries[off]));
    }
  }

  /** It holds as many entries as fit: the next one would not. */
  lemma {:induction false} FittingIsLongest(entries: seq<DirEntry>, off: nat, room: nat)
    requires off <= |entries|
    ensures var n := Fitting(entries, off, room);
      off + n == |entries| || |Page(entries, off, n)| + EntSize(entries[off + n]) > room
    decreases |entries| - off
  {
    hide Record;
    if off < |entries| && EntSize(entries[off]) <= room {
      FittingIsLongest(entries, off + 1, room - EntSize(entries[off]));
    }
  }

  /** A record as the kernel reads it from the front of a page. */
  datatype Seen = Seen(child: nat, off: nat, typ: nat, name: bytes)

  function ParsePage(page: bytes): seq<Seen> {
    if |page| < 24 then []
    else
      var namelen := FromLittleEndian(page[16..20]);
      var size := (24 + namelen + 7) / 8 * 8;
      if size > |page| then []
      else
        [Seen(FromLittleEndian(page[0..8]), FromLittleEndian(page[8..16]), FromLittleEndian(page[20..24]),
              page[24..24 + namelen])] + ParsePage(page[size..])
  }

  /** What the kernel should see of entries off..off + n. */
  function Expected(entries: seq<DirEntry>, off: nat, n: nat): seq<Seen>
    requires off + n <= |entries|
    decreases n
  {
    if n == 0 then []
    else
      var e := entries[off];
      [Seen(e.child, off + 1, e.typ, e.name)] + Expected(entries, off + 1, n - 1)
  }

  /** The fields of the first record of a page. */
  lemma RecordFields(e: DirEntry, off: nat, rest: bytes)
    requires Fits(e) && off < 0x1_0000_0000
    ensures var page := Record(e, off) + rest;
      && |page| >= 24 && page[EntSize(e)..] == rest
      && FromLittleEndian(page[0..8]) == e.child && FromLittleEndian(page[8..16]) == off
      && FromLittleEndian(page[16..20]) == |e.name| && FromLittleEndian(page[20..24]) == e.typ
      && page[24..24 + |e.name|] == e.name
  {
    hide LittleEndian, FromLittleEndian;
    var page := Record(e, off) + rest;
    assert page[0..8] == LittleEndian(e.child, 8);
    assert page[8..16] == LittleEndian(off, 8);
    assert page[16..20] == LittleEndian(|e.name|, 4);
    assert page[20..24] == LittleEndian(e.typ, 4);
    FieldWidths();
    LittleEndianReads(e.child, 8);
    LittleEndianReads(off, 8);
    LittleEndianReads(|e.name|, 4);
    LittleEndianReads(e.typ, 4);
  }

  lemma FieldWidths()
    ensures Pow256(4) == 0x1_0000_0000 && Pow256(8) >= 0x1_0000_0000
  {
    assert Pow256(2) == 0x1_0000;
    assert Pow256(6) >= 0x1_0000_0000;
  }

  /** Parsing a page gives back the entries it was made from. */
  lemma {:induction false} PageReadsBack(entries: seq<DirEntry>, off: nat, n: nat)
    requires off + n <= |entries| < 0x1_0000_0000 && forall i :: 0 <= i < |entries| ==> Fits(entries[i])
    ensures ParsePage(Page(entries, off, n)) == Expected(entries, off, n)
    decreases n
  {
    hide Record, FromLittleEndian;
    if n > 0 {
      RecordFields(entries[off], off + 1, Page(entries, off + 1, n - 1));
      PageReadsBack(entries, off + 1, n - 1);
    }
  }

  // ---------- Paging through a snapshot ----------

  /** What the kernel gets to see when it asks for pages of the given capacities, each time going on behind
    * the last entry it has seen. */
  function ReadAll(entries: seq<DirEntry>, off: nat, rooms: seq<nat>): seq<Seen>
    requires off <= |entries|
    decreases |rooms|
  {
    if rooms == [] then []
    else
      var n := Fitting(entries, off, rooms[0]);
      ParsePage(Page(entries, off, n)) + ReadAll(entries, off + n, rooms[1..])
  }

  lemma {:induction false} ExpectedConcat(entries: seq<DirEntry>, off: nat, n: nat, m: nat)
    requires off + n + m <= |entries|
    ensures Expected(entries, off, n) + Expected(entries, off + n, m) == Expected(entries, off, n + m)
    decreases n
  {
    if n > 0 {
      ExpectedConcat(entries, off + 1, n - 1, m);
      var e := entries[off];
      Assoc([Seen(e.child, off + 1, e.typ, e.name)], Expected(entries, off + 1, n - 1), Expected(entries, off + n, m));
    } else {
      assert [] + Expected(entries, off, m) == Expected(entries, off, m);
    }
  }

  /** How many entries pages of these capacities show. */
  function Shown(entries: seq<DirEntry>, off: nat, rooms: seq<nat>): (n: nat)
    requires off <= |entries|
    ensures off + n <= |entries|
    decreases |rooms|
  {
    if rooms == [] then 0
    else
      var n := Fitting(entries, off, rooms[0]);
      n + Shown(entries, off + n, rooms[1..])
  }

  /** Whatever the capacities, the pages show the entries in order, none twice and none left out between others. */
  lemma {:induction false} PagingIsInOrder(entries: seq<DirEntry>, off: nat, rooms: seq<nat>)
    requires off <= |entries| < 0x1_0000_0000 && forall i :: 0 <= i < |entries| ==> Fits(entries[i])
    ensures ReadAll(entries, off, rooms) == Expected(entries, off, Shown(entries, off, rooms))
    decreases |rooms|
  {
    hide ParsePage, Page, Fitting;
    if rooms != [] {
      var k := Fitting(entries, off, rooms[0]);
      PageReadsBack(entries, off, k);
      PagingIsInOrder(entries, off + k, rooms[1..]);
      ExpectedConcat(entries, off, k, Shown(entries, off + k, rooms[1..]));
    }
  }

  /** Every buffer has room for the entry that comes next when it is its turn. */
  predicate RoomForNext(entries: seq<DirEntry>, off: nat, rooms: seq<nat>)
    requires off <= |entries|
    decreases |rooms|
  {
    rooms == [] ||
    (&& (off < |entries| ==> EntSize(entries[off]) <= rooms[0])
     && RoomForNext(entries, off + Fitting(entries, off, rooms[0]), rooms[1..]))
  }

  /** Then every request shows an entry until the end, which comes at the latest after as many requests as there
    * are entries. A buffer without room for the next entry shows nothing, which means the end to the kernel. */
  lemma {:induction false} PagingIsComplete(entries: seq<DirEntry>, off: nat, rooms: seq<nat>)
    requires off <= |entries| && RoomForNext(entries, off, rooms)
    ensures Shown(entries, off, rooms) >= Min(|rooms|, |entries| - off)
    decreases |rooms|
  {
    if rooms != [] {
      PagingIsComplete(entries, off + Fitting(entries, off, rooms[0]), rooms[1..]);
    }
  }

  lemma EmptyPageIsEnd(entries: seq<DirEntry>, off: nat, room: nat)
    requires off <= |entries|
    ensures Page(entries, off, Fitting(entries, off, room)) == [] <==>
            off == |entries| || EntSize(entries[off]) > room
  {
  }

  /** The loop of readdir: skip to the offset, add entries until one does not fit. */
  method FillPage(entries: seq<DirEntry>, offset: nat, reply: ReplyDirectory)
    requires reply.Valid() && reply.data == []
    modifies reply`data
    ensures reply.Valid()
    ensures var off := Min(offset, |entries|); reply.data == Page(entries, off, Fitting(entries, off, reply.capacity))
  {
    hide Record, Page, Fitting, EntSize;
    ghost var off, n: nat := Min(offset, |entries|), 0;
    var i := Min(offset, |entries|);
    EmptyPage(entries, off);
    while i < |entries|
      invariant i == off + n <= |entries| && reply.Valid()
      invariant reply.data == Page(entries, off, n)
      invariant Fitting(entries, off, reply.capacity) == n + Fitting(entries, i, reply.capacity - |reply.data|)
    {
      FittingStep(entries, i, reply.capacity - |reply.data|);
      PageSnoc(entries, off, n);
      var full := reply.Add(entries[i], i + 1);
      if full {
        return;
      }
      i, n := i + 1, n + 1;
    }
    FittingStep(entries, i, reply.capacity - |reply.data|);
  }

  // ---------- Reading through one handle while others are in use ----------

  /** Next is a readdir on the handle in question, behind the last entry seen. */
  datatype DirRequest =
    | Opendir(ino: nat, dentries: seq<DirEntry>)
    | Releasedir(ino: nat, fh: nat)
    | Readdir(ino: nat, fh: nat, offset: nat, room: nat)
    | Next(room: nat)

  /** The capacities of the pages asked for on the handle in question. */
  function Rooms(rs: seq<DirRequest>): seq<nat> {
    if rs == [] then []
    else
      var last := rs[|rs| - 1];
      Rooms(rs[..|rs| - 1]) + if last.Next? then [last.room] else []
  }

  lemma RoomsStep(rs: seq<DirRequest>, i: nat)
    requires i < |rs|
    ensures Rooms(rs[..i + 1]) == if rs[i].Next? then Rooms(rs[..i]) + [rs[i].room] else Rooms(rs[..i])
  {
    assert rs[..i + 1][..i] == rs[..i];
    assert Rooms(rs[..i]) + [] == Rooms(rs[..i]);
  }

  lemma NoRooms(entries: seq<DirEntry>)
    ensures Rooms([]) == [] && ReadAll(entries, 0, []) == [] && Shown(entries, 0, []) == 0
  {
  }

  lemma {:induction false} OneMorePage(entries: seq<DirEntry>, off: nat, rooms: seq<nat>, room: nat)
    requires off <= |entries|
    ensures var off' := off + Shown(entries, off, rooms);
      var n := Fitting(entries, off', room);
      && ReadAll(entries, off, rooms + [room]) == ReadAll(entries, off, rooms) + ParsePage(Page(entries, off', n))
      && Shown(entries, off, rooms + [room]) == Shown(entries, off, rooms) + n
    decreases |rooms|
  {
    hide ParsePage, Page, Fitting;
    if rooms == [] {
      assert [room][1..] == [] && [] + [room] == [room];
      var n := Fitting(entries, off, room);
      assert [] + ParsePage(Page(entries, off, n)) == ParsePage(Page(entries, off, n)) + [];
    } else {
      assert (rooms + [room])[1..] == rooms[1..] + [room];
      var k := Fitting(entries, off, rooms[0]);
      OneMorePage(entries, off + k, rooms[1..], room);
      var off' := off + Shown(entries, off, rooms);
      Assoc(ParsePage(Page(entries, off, k)), ReadAll(entries, off + k, rooms[1..]),
            ParsePage(Page(entries, off', Fitting(entries, off', room))));
    }
  }

  /** The last entry of a page carries the offset to go on from. */
  lemma PageEnds(entries: seq<DirEntry>, off: nat, n: nat)
    requires off + n <= |entries| < 0x1_0000_0000 && forall i :: 0 <= i < |entries| ==> Fits(entries[i])
    ensures var page := ParsePage(Page(entries, off, n)); |page| == n && (n > 0 ==> page[n - 1].off == off + n)
  {
    hide ParsePage, Page, Expected, Fits;
    PageReadsBack(entries, off, n);
    ExpectedLength(entries, off, n);
  }

  lemma {:induction false} ExpectedLength(entries: seq<DirEntry>, off: nat, n: nat)
    requires off + n <= |entries|
    ensures |Expected(entries, off, n)| == n
    ensures n > 0 ==> Expected(entries, off, n)[n - 1].off == off + n
    decreases n
  {
    if n > 0 {
      ExpectedLength(entries, off + 1, n - 1);
    }
  }

  // ---------- Open directories ----------

  /** The snapshots of one inode and the next handle number. */
  datatype OpenDir = OpenDir(count: nat, list: map<nat, seq<DirEntry>>)

  /** The table of open directories. */
  class Handles {
    var handler: map<nat, OpenDir>

    constructor ()
      ensures handler == map[]
    {
      handler := map[];
    }

    ghost function Snapshot(ino: nat, fh: nat): Option<seq<DirEntry>>
      reads this
    {
      if ino in handler && fh in handler[ino].list then Some(handler[ino].list[fh]) else None
    }

    /** Handle numbers in use are below the next one. */
    ghost predicate Valid()
      reads this
    {
      forall ino, fh :: ino in handler && fh in handler[ino].list ==> fh < handler[ino].count
    }

    /** opendir: a new handle for a snapshot of the directory; all other handles stay as they are. */
    method Open(ino: nat, dentries: seq<DirEntry>) returns (fh: nat)
      requires Valid()
      modifies this
      ensures Valid() && old(Snapshot(ino, fh)) == None && Snapshot(ino, fh) == Some(dentries)
      ensures forall i: nat, h: nat :: (i, h) != (ino, fh) ==> Snapshot(i, h) == old(Snapshot(i, h))
    {
      var d := if ino in handler then handler[ino] else OpenDir(0, map[]);
      fh := d.count;
      handler := handler[ino := OpenDir(d.count + 1, d.list[fh := dentries])];
    }

    /** readdir: the page of the snapshot from `offset` on; no error as long as the handle is open. */
    method Read(ino: nat, fh: nat, offset: nat, reply: ReplyDirectory) returns (ok: bool)
      requires reply.Valid() && reply.data == []
      modifies reply`data
      ensures ok <==> Snapshot(ino, fh).Some?
      ensures ok ==> var entries := Snapshot(ino, fh).value; var off := Min(offset, |entries|);
                reply.data == Page(entries, off, Fitting(entries, off, reply.capacity))
      ensures !ok ==> reply.data == []
      ensures reply.Valid()
    {
      if ino !in handler || fh !in handler[ino].list {
        return false;
      }
      FillPage(handler[ino].list[fh], offset, reply);
      return true;
    }

    /** releasedir: this handle is closed, no other. */
    method Release(ino: nat, fh: nat)
      requires Valid()
      modifies this
      ensures Valid() && Snapshot(ino, fh) == None
      ensures forall i: nat, h: nat :: (i, h) != (ino, fh) ==> Snapshot(i, h) == old(Snapshot(i, h))
    {
      var d := if ino in handler then handler[ino] else OpenDir(0, map[]);
      handler := handler[ino := d.(list := d.list - {fh})];
      if d.count == 0 {
        handler := handler - {ino};
      }
    }

    /** A program reads the directory behind one handle page by page while other handles are opened, read and
      * closed, going on from the offset in the last entry seen: it sees the entries of its own snapshot in order,
      * each once, and all of them if the buffers have room and are enough. */
    method PageThrough(ino: nat, fh: nat, rs: seq<DirRequest>) returns (seen: seq<Seen>)
      requires Valid() && Snapshot(ino, fh).Some?
      requires forall e :: e in Snapshot(ino, fh).value ==> Fits(e)
      requires |Snapshot(ino, fh).value| < 0x1_0000_0000
      requires forall i :: 0 <= i < |rs| ==> rs[i] != Releasedir(ino, fh)
      modifies this
      ensures Valid() && Snapshot(ino, fh) == old(Snapshot(ino, fh))
      ensures var entries := old(Snapshot(ino, fh)).value;
        && seen == Expected(entries, 0, Shown(entries, 0, Rooms(rs)))
        && (RoomForNext(entries, 0, Rooms(rs)) && |Rooms(rs)| >= |entries| ==> seen == Expected(entries, 0, |entries|))
    {
      hide ParsePage, Page, Fitting, Rooms, Shown, ReadAll, RoomForNext, Expected;
      ghost var entries := Snapshot(ino, fh).value;
      seen := [];
      var offset := 0;
      var i := 0;
      NoRooms(entries);
      while i < |rs|
        invariant 0 <= i <= |rs| && Valid() && Snapshot(ino, fh) == Some(entries)
        invariant seen == ReadAll(entries, 0, Rooms(rs[..i])) && offset == Shown(entries, 0, Rooms(rs[..i]))
      {
        RoomsStep(rs, i);
        match rs[i] {
          case Opendir(other, dentries) => var _ := Open(other, dentries);
          case Releasedir(other, h) => Release(other, h);
          case Readdir(other, h, off, room) =>
            var reply := new ReplyDirectory(room);
            var _ := Read(other, h, off, reply);
          case Next(room) =>
            var reply := new ReplyDirectory(room);
            var ok := Read(ino, fh, offset, reply);
            var page := ParsePage(reply.data);
            OneMorePage(entries, 0, Rooms(rs[..i]), room);
            PageEnds(entries, offset, Fitting(entries, offset, room));
            seen := seen + page;
            if page != [] {
              offset := page[|page| - 1].off;
            }
        }
        i := i + 1;
      }
      assert rs[..|rs|] == rs;
      PagingIsInOrder(entries, 0, Rooms(rs));
      if RoomForNext(entries, 0, Rooms(rs)) {
        PagingIsComplete(entries, 0, Rooms(rs));
      }
    }
  }
}
