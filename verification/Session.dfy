/** Names and content together: any run of requests behaves like a tree of names over flat files. */
module Session {
  import opened Bytes
  import opened FlatFile
  import opened FileStore
  import opened Namespace
  import AuditLog
  import Wrappers
  import Lifetime
  import Reclaiming
  import Replies
  import SizeHeader
  import SqliteFs

  datatype Request =
    | Names(r: Lifetime.Request)
    | Put(ino: nat, offset: nat, d: bytes)
    | Truncate(ino: nat, n: nat)
    | Get(ino: nat, offset: nat, n: nat)
    | Readlink(ino: nat)

  datatype Reply = Named(reply: Lifetime.Reply) | Success | Content(d: bytes) | Fails

  type Files = map<nat, bytes>

  /** What a user sees: the names with the lookup counts, and the content of every inode. */
  datatype State = State(fs: Lifetime.Fs, files: Files)

  /** What the kernel sends: writes are not empty, and ranges end below 2^32. */
  ghost predicate Sendable(s: State, r: Request) {
    match r
    case Names(q) => Lifetime.Sendable(s.fs, q)
    case Put(_, offset, d) => d != [] && offset + |d| < 0x1_0000_0000
    case Truncate(_, n) => n < 0x1_0000_0000
    case Get(_, offset, n) => offset + n < 0x1_0000_0000
    case Readlink(_) => true
  }

  /** The text a new inode starts with. */
  function FirstContent(q: Lifetime.Request): bytes {
    if q.MakeSymlink? && |q.text| <= 4096 then q.text else []
  }

  /** Inodes that stay keep their content. */
  function Carried(files: Files, meta: map<nat, Kind>, first: bytes): Files {
    map i | i in meta :: if i in files then files[i] else first
  }

  /** The request carried out on flat files. An inode without names cannot be truncated: get_inode fails. */
  ghost function FlatStep(s: State, r: Request): (State, Reply)
    requires Sendable(s, r)
  {
    match r
    case Names(q) =>
      var (fs', reply) := Lifetime.Step(s.fs, q);
      (State(fs', Carried(s.files, fs'.db.meta, FirstContent(q))), Named(reply))
    case Put(ino, offset, d) =>
      if ino in s.files then (s.(files := s.files[ino := PWrite(s.files[ino], offset, d)]), Success) else (s, Fails)
    case Truncate(ino, n) =>
      if ino in s.files && Referenced(s.fs.db, ino) then
        (s.(files := s.files[ino := FTruncate(s.files[ino], n)]), Success)
      else (s, Fails)
    case Get(ino, offset, n) =>
      (s, Content(ReadPadded(if ino in s.files then s.files[ino] else [], offset, n)))
    case Readlink(ino) =>
      if ino in s.files && ino in s.fs.db.meta && Referenced(s.fs.db, ino) && s.fs.db.meta[ino] == Symlink then
        (s, Content(LinkText(s.files[ino])))
      else (s, Fails)
  }

  ghost predicate Inv(s: State) {
    Lifetime.Inv(s.fs) && s.files.Keys == s.fs.db.meta.Keys
  }

  ghost predicate SendableRun(s: State, rs: seq<Request>)
    decreases |rs|, 0
  {
    rs == [] || (SendableRun(s, rs[..|rs| - 1]) && Sendable(FlatRun(s, rs[..|rs| - 1]).0, rs[|rs| - 1]))
  }

  /** A run on flat files, with all replies. */
  ghost function FlatRun(s: State, rs: seq<Request>): (res: (State, seq<Reply>))
    requires SendableRun(s, rs)
    ensures |res.1| == |rs|
    decreases |rs|, 1
  {
    if rs == [] then (s, [])
    else
      var (s', replies) := FlatRun(s, rs[..|rs| - 1]);
      var (s'', reply) := FlatStep(s', rs[|rs| - 1]);
      (s'', replies + [reply])
  }

  /** A symlink that succeeds makes one inode, for a text that fits; one that fails makes none, or one for a text
    * that does not fit. */
  predicate SymlinkMade(inodes: set<nat>, inodes': set<nat>, text: bytes, reply: Lifetime.Reply) {
    if reply.Inode? then |text| <= 4096 && reply.ino !in inodes && inodes' == inodes + {reply.ino}
    else |text| > 4096 || inodes' == inodes
  }

  lemma NewSymlink(fs: Lifetime.Fs, q: Lifetime.Request)
    requires Lifetime.Inv(fs) && q.MakeSymlink? && Lifetime.Sendable(fs, q)
    ensures var (fs', reply) := Lifetime.Step(fs, q);
      SymlinkMade(fs.db.meta.Keys, fs'.db.meta.Keys, q.text, reply)
  {
    hide Tree, AddInodeAndDentry, Referenced, Lifetime.Usable;
    if AddInodeAndDentry(fs.db, q.parent, q.name, Symlink).Ok? {
      AddMeta(fs.db, q.parent, q.name, Symlink);
      Lifetime.NumbersBelow(fs.db);
    }
  }

  lemma NamesStep(s: State, q: Lifetime.Request)
    requires Lifetime.Sendable(s.fs, q)
    ensures var (fs', reply) := Lifetime.Step(s.fs, q);
      && Sendable(s, Names(q))
      && FlatStep(s, Names(q)) == (State(fs', Carried(s.files, fs'.db.meta, FirstContent(q))), Named(reply))
  {
  }

  /** The mounted filesystem: the tables of names, the lookup counts, and the blocks. */
  class Mount {
    const names: SqliteFs.SqliteFs
    const store: Store

    ghost function Abstract(): State
      reads this, names, names.db, store, store.data
    {
      State(names.State(), store.Files())
    }

    ghost predicate Valid()
      reads this, names, names.db, store, store.data
    {
      store.Valid() && Inv(Abstract())
    }

    /** A new database, mounted: the root, of no content. */
    constructor (ext: AuditLog.Ext)
      requires SizeHeader.Inverse(ext.zlib)
      ensures Valid() && fresh(names) && fresh(names.db) && fresh(store) && fresh(store.data)
      ensures Abstract().fs == Lifetime.Fs(Lifetime.DropAll(Lifetime.NEW_DB), map[])
      ensures forall i :: i in Abstract().files ==> Abstract().files[i] == []
    {
      hide Store.Valid, Store.Files, Lifetime.Inv, Lifetime.DropAll;
      names := new SqliteFs.SqliteFs();
      store := new Store(ext);
      new;
      store.Follow(names.db.meta.Keys);
    }

    lemma SameMeta()
      ensures names.State().db.meta == names.db.meta
    {
    }

    /** A request on names, with what it does to the blocks: inodes that go lose theirs, a new symbolic link gets
      * its text. */
    method HandleNames(q: Lifetime.Request) returns (reply: Lifetime.Reply)
      requires Valid() && Lifetime.Sendable(Abstract().fs, q)
      modifies names`lookupCount, names.db, store`size, store.data
      ensures Valid() && (Abstract(), Named(reply)) == FlatStep(old(Abstract()), Names(q))
    {
      hide Store.Valid, Store.Files, Lifetime.Inv, Lifetime.Step, Lifetime.Sendable, Lifetime.Numbers, FlatStep,
           SqliteFs.SqliteFs.State, Sendable, FirstContent;
      ghost var fs := names.State();
      NamesStep(Abstract(), q);
      SameMeta();
      reply := names.Serve(q);
      SameMeta();
      if q.MakeSymlink? {
        NewSymlink(fs, q);
      }
      FollowNames(q, reply, names.db.meta);
    }

    /** The blocks after a request on names: `meta` are the rows of metadata it has left. */
    method FollowNames(q: Lifetime.Request, reply: Lifetime.Reply, meta: map<nat, Kind>)
      requires store.Valid() && (q.MakeSymlink? ==> SymlinkMade(store.Files().Keys, meta.Keys, q.text, reply))
      modifies store`size, store.data
      ensures store.Valid() && store.Files() == Carried(old(store.Files()), meta, FirstContent(q))
    {
      hide Store.Valid, Store.Files;
      ghost var before := store.Files();
      store.Follow(meta.Keys);
      if q.MakeSymlink? && reply.Inode? {
        var _ := store.WriteLink(reply.ino, q.text);
      }
      assert store.Files() == Carried(before, meta, FirstContent(q));
    }

    /** The handler for one request. */
    method Handle(r: Request) returns (reply: Reply)
      requires Valid() && Sendable(Abstract(), r)
      modifies names`lookupCount, names.db, store`size, store.data
      ensures Valid() && (Abstract(), reply) == FlatStep(old(Abstract()), r)
    {
      hide Store.Valid, Store.Files, PWrite, FTruncate, ReadPadded, LinkText, Lifetime.Inv, Lifetime.Step, Referenced;
      var ok;
      match r {
        case Names(q) =>
          var answer := HandleNames(q);
          return Named(answer);
        case Put(ino, offset, d) =>
          ok := store.Write(ino, offset, d);
        case Truncate(ino, n) =>
          U32Small(n);
          var attr := names.db.GetInode(ino);
          ok := store.SetSize(ino, attr.Ok? && attr.value.Some?, n);
        case Get(ino, offset, n) =>
          var d := store.Read(ino, offset, n);
          return Content(d);
        case Readlink(ino) =>
          var attr := names.db.GetInode(ino);
          if attr.Ok? && attr.value == Wrappers.Some(Symlink) {
            var text := store.ReadLink(ino);
            return Content(text);
          }
          ok := false;
      }
      reply := if ok then Success else Fails;
    }

    /** Any run of requests: the replies, the names and the content are those of the tree over flat files, and the
      * audit log replays to the blocks that are stored. */
    method Serve(rs: seq<Request>) returns (replies: seq<Reply>)
      requires Valid() && SendableRun(Abstract(), rs)
      modifies names`lookupCount, names.db, store`size, store.data
      ensures Valid() && (Abstract(), replies) == FlatRun(old(Abstract()), rs)
      ensures AuditLog.Replay(store.data.ext, store.data.log) == store.data.rows
    {
      hide FlatStep, AuditLog.Replay, Sendable, Inv, Store.Files, SqliteFs.SqliteFs.State;
      replies := [];
      var i := 0;
      ghost var before := Abstract();
      RunPrefix(before, rs, 0);
      while i < |rs|
        invariant 0 <= i <= |rs| && SendableRun(before, rs[..i])
        invariant Valid() && (Abstract(), replies) == FlatRun(before, rs[..i])
      {
        hide Store.Valid;
        RunPrefix(before, rs, i + 1);
        assert rs[..i + 1][..i] == rs[..i];
        var reply := Handle(rs[i]);
        replies := replies + [reply];
        i := i + 1;
      }
      assert rs[..|rs|] == rs;
    }
  }

  lemma {:induction false} RunPrefix(s: State, rs: seq<Request>, n: nat)
    requires n <= |rs| && SendableRun(s, rs)
    ensures SendableRun(s, rs[..n])
    decreases |rs|
  {
    hide Sendable, FlatStep;
    if n < |rs| {
      RunPrefix(s, rs[..|rs| - 1], n);
      assert rs[..|rs| - 1][..n] == rs[..n];
    } else {
      assert rs[..n] == rs;
    }
  }

  // ---------- What holds over whole runs ----------

  function NamesIn(rs: seq<Request>): seq<Lifetime.Request> {
    if rs == [] then []
    else
      var r := rs[|rs| - 1];
      NamesIn(rs[..|rs| - 1]) + if r.Names? then [r.r] else []
  }

  /** The replies to requests on names. */
  function NamedIn(replies: seq<Reply>): seq<Lifetime.Reply> {
    if replies == [] then []
    else
      var last := replies[|replies| - 1];
      NamedIn(replies[..|replies| - 1]) + if last.Named? then [last.reply] else []
  }

  /** The names do not depend on the content: all that is proved about runs of requests on names, and the replies to
    * them, holds for these runs too. */
  lemma {:induction false} NamesRunAlone(s: State, rs: seq<Request>)
    requires SendableRun(s, rs)
    ensures Lifetime.SendableRun(s.fs, NamesIn(rs)) && FlatRun(s, rs).0.fs == Lifetime.Run(s.fs, NamesIn(rs))
    ensures NamedIn(FlatRun(s, rs).1) == Replies.RepliesOf(s.fs, NamesIn(rs))
    decreases |rs|
  {
    hide Lifetime.Sendable, Lifetime.Step, Lifetime.Run, Lifetime.SendableRun, Replies.RepliesOf;
    if rs == [] {
      Lifetime.RunNothing(s.fs);
      Replies.NoReplies(s.fs);
    } else {
      var init, r := rs[..|rs| - 1], rs[|rs| - 1];
      NamesRunAlone(s, init);
      if r.Names? {
        Lifetime.RunSnoc(s.fs, NamesIn(init), r.r);
        Replies.RepliesSnoc(s.fs, NamesIn(init), r.r);
      } else {
        assert NamesIn(init) + [] == NamesIn(init);
        assert NamedIn(FlatRun(s, init).1) + [] == NamedIn(FlatRun(s, init).1);
      }
    }
  }

  lemma {:induction false} RunKeepsInv(s: State, rs: seq<Request>)
    requires Inv(s) && SendableRun(s, rs)
    ensures Inv(FlatRun(s, rs).0)
    decreases |rs|
  {
    hide Lifetime.Inv, Lifetime.Sendable, Lifetime.Step;
    if rs != [] {
      var init, r := rs[..|rs| - 1], rs[|rs| - 1];
      RunKeepsInv(s, init);
      if r.Names? {
        Lifetime.StepKeepsInv(FlatRun(s, init).0.fs, r.r);
      }
    }
  }

  /** The content after the writes and truncations of inode `i` that have succeeded. */
  function Edited(f: bytes, rs: seq<Request>, replies: seq<Reply>, i: nat): bytes
    requires |replies| == |rs|
  {
    if rs == [] then f
    else
      var n := |rs| - 1;
      var g := Edited(f, rs[..n], replies[..n], i);
      match rs[n]
      case Put(ino, offset, d) => if ino == i && replies[n] == Success then PWrite(g, offset, d) else g
      case Truncate(ino, size) => if ino == i && replies[n] == Success then FTruncate(g, size) else g
      case _ => g
  }

  /** A file can be truncated exactly as long as it has a name. */
  lemma TruncateNeedsName(s: State, i: nat, n: nat)
    requires Inv(s) && Sendable(s, Truncate(i, n)) && i in s.files && s.fs.db.meta[i] != Directory
    ensures FlatStep(s, Truncate(i, n)).1 == Success <==> Linked(s.fs.db, i)
  {
    hide Tree, Lifetime.HeldPresent, Lifetime.NoOrphans, Referenced, Linked;
    Reclaiming.ReferencedFileIsLinked(s.fs.db, i);
  }

  /** An inode that is there after a run has the content it had before, changed by its own successful writes and
    * truncations in their order, and by nothing else: not by links, renames or the loss of its last name, and not
    * by another file. */
  lemma {:induction false} ContentIsItsOwn(s: State, rs: seq<Request>, i: nat)
    requires Inv(s) && SendableRun(s, rs) && i in s.files && i in FlatRun(s, rs).0.files
    ensures var (s', replies) := FlatRun(s, rs); s'.files[i] == Edited(s.files[i], rs, replies, i)
    decreases |rs|
  {
    hide Lifetime.Inv, Lifetime.Sendable, Lifetime.Step, Referenced, PWrite, FTruncate, ReadPadded;
    if rs != [] {
      var init, r := rs[..|rs| - 1], rs[|rs| - 1];
      var s0 := FlatRun(s, init).0;
      RunKeepsInv(s, init);
      RunKeepsInv(s, rs);
      StillThere(s, init, r, i);
      ContentIsItsOwn(s, init, i);
    }
  }

  /** What is there at the end of a run and was there at its start has been there all the time. */
  lemma StillThere(s: State, init: seq<Request>, r: Request, i: nat)
    requires Inv(s) && SendableRun(s, init) && Sendable(FlatRun(s, init).0, r)
    requires i in s.files && i in FlatStep(FlatRun(s, init).0, r).0.files
    ensures i in FlatRun(s, init).0.files
  {
    hide Tree, Lifetime.HeldPresent, Lifetime.NoOrphans, Lifetime.Step, Lifetime.Sendable, Lifetime.Run,
         Lifetime.SendableRun, Referenced;
    var s0 := FlatRun(s, init).0;
    RunKeepsInv(s, init);
    NamesRunAlone(s, init);
    Lifetime.RunKeepsInv(s.fs, NamesIn(init));
    Lifetime.NumbersBelow(s.fs.db);
    if r.Names? {
      Lifetime.StepKeepsInv(s0.fs, r.r);
    }
  }

  /** A file that has lost its last name is kept, content and all, exactly as long as the kernel holds it. */
  lemma UnlinkedFileIsKept(s: State, rs: seq<Request>, i: nat)
    requires Inv(s) && SendableRun(s, rs) && Reclaiming.Removed(s.fs.db, i) && s.fs.db.meta[i] != Directory
    ensures i in s.files
    ensures var (s', replies) := FlatRun(s, rs);
      && (i in s'.files <==> i in s'.fs.held)
      && (i in s'.files ==> s'.files[i] == Edited(s.files[i], rs, replies, i))
  {
    hide Lifetime.HeldPresent, Lifetime.NoOrphans, Tree, FlatRun, SendableRun, Reclaiming.Leaked, Rows, Linked,
         Edited, Lifetime.Run, Lifetime.SendableRun;
    RunKeepsInv(s, rs);
    NamesRunAlone(s, rs);
    Lifetime.TreeRows(s.fs.db);
    Reclaiming.FilesDoNotLeak(s.fs.db, i);
    Reclaiming.RemovedFate(s.fs, NamesIn(rs), i);
    if i in FlatRun(s, rs).0.files {
      ContentIsItsOwn(s, rs, i);
    }
  }

  /** A file that is neither written nor truncated keeps its content: a symbolic link its text, for one. */
  lemma UneditedStays(s: State, rs: seq<Request>, i: nat)
    requires Inv(s) && SendableRun(s, rs) && i in s.files && i in FlatRun(s, rs).0.files
    requires forall k :: 0 <= k < |rs| ==> !Edits(rs[k], i)
    ensures FlatRun(s, rs).0.files[i] == s.files[i]
  {
    hide FlatRun, SendableRun, Inv, Edits, Edited;
    ContentIsItsOwn(s, rs, i);
    EditedNothing(s.files[i], rs, FlatRun(s, rs).1, i);
  }

  ghost predicate IsLink(s: State, i: nat, text: bytes) {
    i in s.files && i in s.fs.db.meta && s.fs.db.meta[i] == Symlink && s.files[i] == text && |text| <= 4096
  }

  lemma SymlinkIsMade(s: State, q: Lifetime.Request)
    requires Inv(s) && q.MakeSymlink? && Lifetime.Sendable(s.fs, q)
    ensures var (s', reply) := FlatStep(s, Names(q));
      Inv(s') && (reply.reply.Inode? ==> IsLink(s', reply.reply.ino, q.text))
  {
    hide Lifetime.HeldPresent, Lifetime.NoOrphans, Tree, Lifetime.Step, Lifetime.Sendable;
    NewSymlink(s.fs, q);
    NewIsSymlink(s.fs, q);
    Lifetime.StepKeepsInv(s.fs, q);
  }

  /** A symbolic link reads back as its text as long as something refers to it. */
  lemma LinkReadsBack(s: State, rs: seq<Request>, i: nat, text: bytes)
    requires Inv(s) && SendableRun(s, rs) && IsLink(s, i, text) && i in FlatRun(s, rs).0.files
    requires forall k :: 0 <= k < |rs| ==> !Edits(rs[k], i)
    ensures var s' := FlatRun(s, rs).0; IsLink(s', i, text) && (Referenced(s'.fs.db, i) ==> LinkReply(s', i, text))
  {
    hide Lifetime.HeldPresent, Lifetime.NoOrphans, Tree, FlatRun, SendableRun, Edits, Referenced, Lifetime.Run,
         Lifetime.SendableRun;
    RunKeepsInv(s, rs);
    UneditedStays(s, rs, i);
    NamesRunAlone(s, rs);
    Lifetime.RunKeepsInv(s.fs, NamesIn(rs));
  }

  ghost predicate LinkReply(s: State, i: nat, text: bytes) {
    FlatStep(s, Readlink(i)).1 == Content(text)
  }

  lemma NewIsSymlink(fs: Lifetime.Fs, q: Lifetime.Request)
    requires q.MakeSymlink? && Lifetime.Sendable(fs, q)
    ensures var (fs', reply) := Lifetime.Step(fs, q);
      reply.Inode? ==> reply.ino in fs'.db.meta && fs'.db.meta[reply.ino] == Symlink
  {
  }

  lemma {:induction false} EditedNothing(f: bytes, rs: seq<Request>, replies: seq<Reply>, i: nat)
    requires |replies| == |rs| && forall k :: 0 <= k < |rs| ==> !Edits(rs[k], i)
    ensures Edited(f, rs, replies, i) == f
    decreases |rs|
  {
    if rs != [] {
      EditedNothing(f, rs[..|rs| - 1], replies[..|rs| - 1], i);
    }
  }

  predicate Edits(r: Request, i: nat) {
    (r.Put? && r.ino == i) || (r.Truncate? && r.ino == i)
  }

  /** Request k of the run is a write that has succeeded, and its file has not been written or truncated since. */
  ghost predicate LastWrite(s: State, rs: seq<Request>, k: nat)
    requires SendableRun(s, rs)
  {
    k < |rs| && rs[k].Put? && FlatRun(s, rs).1[k] == Success && forall j :: k < j < |rs| ==> !Edits(rs[j], rs[k].ino)
  }

  /** The written bytes are in the file, as long as it is there. */
  ghost predicate Holds(s: State, w: Request)
    requires w.Put?
  {
    && w.ino <= s.fs.db.lastIno
    && (w.ino in s.files ==> ReadPadded(s.files[w.ino], w.offset, |w.d|) == w.d)
  }

  lemma PutHolds(s: State, w: Request)
    requires Inv(s) && w.Put? && Sendable(s, w) && FlatStep(s, w).1 == Success
    ensures Holds(FlatStep(s, w).0, w)
  {
    hide Lifetime.HeldPresent, Lifetime.NoOrphans, Tree, PWrite, ReadPadded, Lifetime.Step, Lifetime.Sendable,
         Referenced;
    Lifetime.NumbersBelow(s.fs.db);
    AllRead(s.files[w.ino], w.offset, w.d);
  }

  lemma AllRead(f: bytes, at: nat, d: bytes)
    requires d != []
    ensures ReadPadded(PWrite(f, at, d), at, |d|) == d
  {
    hide PWrite, ReadPadded;
    WrittenIsRead(f, at, d, at, |d|);
    assert d[0..|d|] == d;
  }

  lemma HoldsOn(s: State, r: Request, w: Request)
    requires Inv(s) && w.Put? && Sendable(s, r) && !Edits(r, w.ino) && Holds(s, w)
    ensures Holds(FlatStep(s, r).0, w)
  {
    hide Lifetime.HeldPresent, Lifetime.NoOrphans, Tree, PWrite, ReadPadded, Lifetime.Step, Lifetime.Sendable,
         Referenced;
    if r.Names? {
      Lifetime.StepKeepsInv(s.fs, r.r);
    }
  }

  lemma {:induction false} WrittenStays(s: State, rs: seq<Request>, k: nat)
    requires Inv(s) && SendableRun(s, rs) && LastWrite(s, rs, k)
    ensures Holds(FlatRun(s, rs).0, rs[k])
    decreases |rs|
  {
    hide Inv, Sendable, FlatStep, Edits, Holds;
    var init, r := rs[..|rs| - 1], rs[|rs| - 1];
    RunKeepsInv(s, init);
    if k == |rs| - 1 {
      PutHolds(FlatRun(s, init).0, r);
    } else {
      assert init[k] == rs[k];
      WrittenStays(s, init, k);
      HoldsOn(FlatRun(s, init).0, r, rs[k]);
    }
  }

  lemma PartRead(f: bytes, at: nat, d: bytes, off: nat, n: nat)
    requires ReadPadded(f, at, |d|) == d && at <= off && off + n <= at + |d|
    ensures ReadPadded(f, off, n) == d[off - at..off - at + n]
  {
    forall j | 0 <= j < n
      ensures ReadPadded(f, off, n)[j] == d[off - at + j]
    {
      assert ReadPadded(f, at, |d|)[off - at + j] == At(f, off + j);
    }
  }

  // ---------- What the replies of a run are ----------

  /** `s'` is the state in which request k of the run was served, and `reply` the reply to it. */
  ghost predicate Served(s: State, rs: seq<Request>, k: nat, s': State, reply: Reply)
    requires SendableRun(s, rs)
  {
    && k < |rs| && SendableRun(s, rs[..k]) && s' == FlatRun(s, rs[..k]).0 && Sendable(s', rs[k])
    && reply == FlatRun(s, rs).1[k] == FlatStep(s', rs[k]).1
    && FlatRun(s, rs[..k]).1 == FlatRun(s, rs).1[..k]
  }

  lemma {:induction false} EveryRequestIsServed(s: State, rs: seq<Request>, k: nat) returns (s': State, reply: Reply)
    requires SendableRun(s, rs) && k < |rs|
    ensures Served(s, rs, k, s', reply)
    decreases |rs|
  {
    hide Sendable, FlatStep;
    var init := rs[..|rs| - 1];
    if k == |rs| - 1 {
      s', reply := FlatRun(s, init).0, FlatRun(s, rs).1[k];
    } else {
      s', reply := EveryRequestIsServed(s, init, k);
      assert init[..k] == rs[..k];
    }
  }

  /** The content a read sees: nothing of an inode that is not there. */
  function ContentOf(s: State, i: nat): bytes {
    if i in s.files then s.files[i] else []
  }

  /** A read answers with exactly as many bytes as asked for: those of the content at that time from the offset on, and
    * zeros behind its end. The content is what the inode's own successful edits up to then have made of it. */
  lemma GetReply(s: State, rs: seq<Request>, k: nat, i: nat, off: nat, n: nat, s': State, reply: Reply)
    requires Inv(s) && SendableRun(s, rs) && Served(s, rs, k, s', reply) && rs[k] == Get(i, off, n)
    ensures reply.Content? && |reply.d| == n
    ensures forall j :: 0 <= j < n ==> reply.d[j] == At(ContentOf(s', i), off + j)
    ensures i in s.files && i in s'.files ==>
              s'.files[i] == Edited(s.files[i], rs[..k], FlatRun(s, rs).1[..k], i)
  {
    hide Inv, FlatRun, SendableRun, Edited;
    if i in s.files && i in s'.files {
      ContentIsItsOwn(s, rs[..k], i);
    }
  }

  /** A write succeeds exactly if its inode is there, a truncation if some entry leads to it as well, a readlink if it
    * is also a symbolic link. */
  ghost predicate Answers(s: State, r: Request, reply: Reply) {
    match r
    case Put(i, _, _) => reply == if i in s.files then Success else Fails
    case Truncate(i, _) => reply == if i in s.files && Replies.HasEntry(s.fs.db, i) then Success else Fails
    case Readlink(i) =>
      reply == if i in s.files && i in s.fs.db.meta && Replies.HasEntry(s.fs.db, i) && s.fs.db.meta[i] == Symlink then
                 Content(LinkText(s.files[i]))
               else Fails
    case Names(_) => reply.Named?
    case Get(_, _, _) => reply.Content?
  }

  lemma EveryReplyAnswers(s: State, rs: seq<Request>, k: nat, s': State, reply: Reply)
    requires SendableRun(s, rs) && Served(s, rs, k, s', reply)
    ensures Answers(s', rs[k], reply)
  {
    hide FlatRun, SendableRun, Lifetime.Step, Lifetime.Sendable, Referenced, Replies.HasEntry;
    if rs[k].Truncate? || rs[k].Readlink? {
      Replies.HasEntryIsReferenced(s'.fs.db, rs[k].ino);
    }
  }

  /** An inode starts without content, a symbolic link with its text. */
  lemma NewContent(s: State, q: Lifetime.Request, i: nat)
    requires Sendable(s, Names(q)) && i !in s.files && i in FlatStep(s, Names(q)).0.files
    ensures FlatStep(s, Names(q)).0.files[i] == if q.MakeSymlink? && |q.text| <= 4096 then q.text else []
  {
    hide Lifetime.Step, Lifetime.Sendable;
  }

  /** A read inside the range of the last successful write of the file is answered with the written bytes, whatever has
    * happened in between to names and to other files. */
  lemma WriteIsReadBack(s: State, rs: seq<Request>, k: nat, m: nat, off: nat, n: nat, s': State, reply: Reply)
    requires Inv(s) && SendableRun(s, rs) && k < m && Served(s, rs, m, s', reply) && LastWrite(s, rs[..m], k)
    requires rs[m] == Get(rs[k].ino, off, n) && rs[k].ino in s'.files
    requires rs[k].offset <= off && off + n <= rs[k].offset + |rs[k].d|
    ensures var at := off - rs[k].offset; FlatRun(s, rs).1[m] == Content(rs[k].d[at..at + n])
  {
    hide Inv, SendableRun, FlatRun;
    var w := rs[k];
    assert rs[..m][k] == w;
    WrittenStays(s, rs[..m], k);
    PartRead(s'.files[w.ino], w.offset, w.d, off, n);
  }
}
